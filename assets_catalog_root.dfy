/**
 * The browse path of the asset catalog page. The route fragment after the
 * catalog's own route (absent, or a string such as `a/b%20c/`) becomes the
 * asset-path prefix shown by the catalog table: the fragment is split on `/`,
 * empty pieces are dropped, and every remaining piece is percent-decoded with
 * ECMAScript's `decodeURIComponent` (percent-encoding as in section 2.1 of
 * RFC 3986). Decoding raises `URIError` on a malformed escape and nothing
 * catches it, so the whole computation is partial.
 */
module AssetsCatalogRoot {
  import opened Wrappers

  /** The error `decodeURIComponent` raises on a malformed escape. */
  datatype URIError = URIError

  /** Number of occurrences of `c` in `s`. */
  function Occurrences(s: string, c: char): nat
  {
    if s == [] then 0 else (if s[0] == c then 1 else 0) + Occurrences(s[1..], c)
  }

  // ---------------------------------------------------------------------------
  // Splitting on '/' and dropping the empty pieces

  /** `pieces.join('/')`, the inverse of `Split`. */
  function Join(pieces: seq<string>): string
  {
    if |pieces| == 0 then ""
    else if |pieces| == 1 then pieces[0]
    else pieces[0] + "/" + Join(pieces[1..])
  }

  /**
   * `s.split('/')`: a string with k slashes gives k + 1 pieces, empty pieces
   * included (`"".split('/')` is `[""]`). No piece holds a slash, every
   * character of a piece comes from `s`, and joining the pieces gives `s` back.
   */
  function Split(s: string): (pieces: seq<string>)
    ensures |pieces| == Occurrences(s, '/') + 1
    ensures forall i :: 0 <= i < |pieces| ==> '/' !in pieces[i]
    ensures forall i, c :: 0 <= i < |pieces| && c in pieces[i] ==> c in s
    ensures Join(pieces) == s
  {
    if s == [] then [""]
    else
      var rest := Split(s[1..]);
      assert forall c :: c in s[1..] ==> c in s;
      if s[0] == '/' then
        [""] + rest
      else
        assert forall c :: c in [s[0]] + rest[0] ==> c == s[0] || c in rest[0];
        [[s[0]] + rest[0]] + rest[1..]
  }

  /** `.filter((x: string) => x)`: keeps the non-empty pieces, in order. */
  function NonEmpty(pieces: seq<string>): (kept: seq<string>)
    ensures forall i :: 0 <= i < |kept| ==> kept[i] != ""
    ensures forall x :: x in kept <==> x in pieces && x != ""
    ensures |kept| <= |pieces|
  {
    if pieces == [] then []
    else (if pieces[0] == "" then [] else [pieces[0]]) + NonEmpty(pieces[1..])
  }

  /** The non-empty `/`-separated pieces of the raw fragment. */
  function Pieces(raw: string): (pieces: seq<string>)
    ensures forall i :: 0 <= i < |pieces| ==> pieces[i] != "" && '/' !in pieces[i]
    ensures |pieces| <= Occurrences(raw, '/') + 1
  {
    var split := Split(raw);
    assert forall x :: x in split ==> '/' !in x;
    NonEmpty(split)
  }

  // ---------------------------------------------------------------------------
  // decodeURIComponent, at the level of ASCII escapes

  predicate IsHexDigit(c: char)
  {
    '0' <= c <= '9' || 'a' <= c <= 'f' || 'A' <= c <= 'F'
  }

  function HexValue(c: char): (v: nat)
    requires IsHexDigit(c)
    ensures v < 16
  {
    if '0' <= c <= '9' then c as nat - '0' as nat
    else if 'a' <= c <= 'f' then c as nat - 'a' as nat + 10
    else c as nat - 'A' as nat + 10
  }

  /** `s[i]` starts an escape `%XX` that this model decodes: two hex digits naming a byte below 0x80. */
  predicate EscapeAt(s: string, i: nat)
  {
    i + 2 < |s| && s[i] == '%' && IsHexDigit(s[i + 1]) && IsHexDigit(s[i + 2])
    && 16 * HexValue(s[i + 1]) + HexValue(s[i + 2]) < 0x80
  }

  /** Every '%' of `s` starts a decodable escape. */
  predicate WellFormedEscapes(s: string)
  {
    forall i :: 0 <= i < |s| && s[i] == '%' ==> EscapeAt(s, i)
  }

  /**
   * `decodeURIComponent(s)`: every escape `%XX` becomes the character with
   * code XX (the reserved set of `decodeURIComponent` is empty, so `%2F` gives
   * `/` and `%25` gives `%`); every other character is kept. A '%' that is not
   * followed by two hex digits raises `URIError`, and so does an escape of a
   * byte from 0x80 up, which in ECMAScript starts a UTF-8 multi-byte sequence.
   * Each escape shrinks the text by two characters.
   */
  function DecodeComponent(s: string): (r: Result<string, URIError>)
    ensures r.Success? ==> |r.value| + 2 * Occurrences(s, '%') == |s|
  {
    if s == [] then Success("")
    else if s[0] != '%' then
      match DecodeComponent(s[1..])
      case Success(t) => Success([s[0]] + t)
      case Failure(e) => Failure(e)
    else if !EscapeAt(s, 0) then Failure(URIError)
    else
      var code := 16 * HexValue(s[1]) + HexValue(s[2]);
      assert Occurrences(s, '%') == 1 + Occurrences(s[3..], '%') by {
        assert s[1] != '%' && s[2] != '%';
        assert s[1..][1..] == s[2..] && s[2..][1..] == s[3..];
        assert Occurrences(s[1..], '%') == Occurrences(s[2..], '%');
        assert Occurrences(s[2..], '%') == Occurrences(s[3..], '%');
      }
      match DecodeComponent(s[3..])
      case Success(t) => Success([code as char] + t)
      case Failure(e) => Failure(e)
  }

  /** `.map(decodeURIComponent)`: decodes every piece, in order; the first failure propagates. */
  function DecodeAll(pieces: seq<string>): (r: Result<seq<string>, URIError>)
    ensures r.Success? <==> forall i :: 0 <= i < |pieces| ==> DecodeComponent(pieces[i]).Success?
    ensures r.Success? ==> |r.value| == |pieces|
    ensures r.Success? ==> forall i :: 0 <= i < |pieces| ==> r.value[i] == DecodeComponent(pieces[i]).value
  {
    if pieces == [] then Success([])
    else
      match DecodeComponent(pieces[0])
      case Failure(e) => Failure(e)
      case Success(first) =>
        match DecodeAll(pieces[1..])
        case Failure(e) => Failure(e)
        case Success(rest) => Success([first] + rest)
  }

  /** `params['0'] || ''`: an absent route parameter reads as the empty string. */
  function RouteParam(param: Option<string>): (raw: string)
    ensures param.None? ==> raw == ""
    ensures param.Some? ==> raw == param.value
  {
    match param
    case None => ""
    case Some(s) => s
  }

  /** The asset-path prefix computed from the route parameter. */
  function PrefixPath(param: Option<string>): (r: Result<seq<string>, URIError>)
    ensures r.Success? ==> |r.value| <= Occurrences(RouteParam(param), '/') + 1
  {
    DecodeAll(Pieces(RouteParam(param)))
  }

  // ---------------------------------------------------------------------------
  // A reference encoder: escapes exactly '/' and '%'

  function EscapeChar(c: char): (e: string)
  {
    if c == '/' then "%2F" else if c == '%' then "%25" else [c]
  }

  /** Percent-encodes the two characters that would change the decoded path. */
  function EncodeComponent(s: string): (r: string)
    ensures '/' !in r
    ensures |r| == |s| + 2 * (Occurrences(s, '/') + Occurrences(s, '%'))
  {
    if s == [] then "" else EscapeChar(s[0]) + EncodeComponent(s[1..])
  }

  function EncodeAll(segments: seq<string>): (r: seq<string>)
    ensures |r| == |segments|
  {
    seq(|segments|, i requires 0 <= i < |segments| => EncodeComponent(segments[i]))
  }

  /** The hex digit of a value below 16, upper- or lower-case as asked. */
  function HexDigit(v: nat, upper: bool): (c: char)
    requires v < 16
    ensures IsHexDigit(c) && HexValue(c) == v
  {
    if v < 10 then ('0' as int + v) as char
    else if upper then ('A' as int + v - 10) as char
    else ('a' as int + v - 10) as char
  }

  /** `%XX`, the escape of an ASCII character: what `encodeURIComponent` writes for one it reserves. */
  function PercentEncode(c: char): (e: string)
    requires c as int < 0x80
    ensures |e| == 3 && e[0] == '%' && EscapeAt(e, 0)
  {
    var e := ['%', HexDigit(c as int / 16, true), HexDigit(c as int % 16, true)];
    assert 16 * HexValue(e[1]) + HexValue(e[2]) == c as int;
    e
  }

  // ---------------------------------------------------------------------------
  // Lemmas about splitting

  /** A slash between two strings separates their pieces and adds none. */
  lemma {:induction false} SplitConcat(a: string, b: string)
    ensures Split(a + "/" + b) == Split(a) + Split(b)
  {
    if a == [] {
      assert a + "/" + b == "/" + b;
      assert ("/" + b)[1..] == b;
    } else {
      var s := a + "/" + b;
      assert s[0] == a[0] && s[1..] == a[1..] + "/" + b;
      SplitConcat(a[1..], b);
      var rest := Split(a[1..]);
      if a[0] != '/' {
        assert (rest + Split(b))[0] == rest[0];
        assert (rest + Split(b))[1..] == rest[1..] + Split(b);
      }
    }
  }

  lemma {:induction false} SplitWithoutSlash(a: string)
    requires '/' !in a
    ensures Split(a) == [a]
  {
    if a != [] {
      assert '/' !in a[1..];
      SplitWithoutSlash(a[1..]);
      assert [a[0]] + a[1..] == a;
    }
  }

  /** Splitting what was joined gives back the pieces, when no piece holds a slash. */
  lemma {:induction false} SplitJoin(pieces: seq<string>)
    requires |pieces| >= 1
    requires forall i :: 0 <= i < |pieces| ==> '/' !in pieces[i]
    ensures Split(Join(pieces)) == pieces
  {
    SplitWithoutSlash(pieces[0]);
    if |pieces| > 1 {
      SplitJoin(pieces[1..]);
      SplitConcat(pieces[0], Join(pieces[1..]));
      assert [pieces[0]] + pieces[1..] == pieces;
    }
  }

  lemma {:induction false} NonEmptyConcat(a: seq<string>, b: seq<string>)
    ensures NonEmpty(a + b) == NonEmpty(a) + NonEmpty(b)
  {
    if a == [] {
      assert a + b == b;
    } else {
      assert (a + b)[0] == a[0] && (a + b)[1..] == a[1..] + b;
      NonEmptyConcat(a[1..], b);
    }
  }

  lemma {:induction false} NonEmptyKeepsNonEmpty(pieces: seq<string>)
    requires forall i :: 0 <= i < |pieces| ==> pieces[i] != ""
    ensures NonEmpty(pieces) == pieces
  {
    if pieces != [] {
      NonEmptyKeepsNonEmpty(pieces[1..]);
      assert [pieces[0]] + pieces[1..] == pieces;
    }
  }

  /** The pieces of `a/b` are the pieces of `a` followed by those of `b`. */
  lemma PiecesConcat(a: string, b: string)
    ensures Pieces(a + "/" + b) == Pieces(a) + Pieces(b)
  {
    SplitConcat(a, b);
    NonEmptyConcat(Split(a), Split(b));
  }

  lemma EmptyRouteHasNoPieces()
    ensures Pieces("") == []
  {
    assert Split("") == [""];
  }

  lemma LeadingSlashIgnored(a: string)
    ensures Pieces("/" + a) == Pieces(a)
  {
    EmptyRouteHasNoPieces();
    PiecesConcat("", a);
    assert "" + "/" + a == "/" + a;
  }

  lemma TrailingSlashIgnored(a: string)
    ensures Pieces(a + "/") == Pieces(a)
  {
    EmptyRouteHasNoPieces();
    PiecesConcat(a, "");
    assert a + "/" + "" == a + "/";
  }

  lemma DoubledSlashIgnored(a: string, b: string)
    ensures Pieces(a + "//" + b) == Pieces(a + "/" + b)
  {
    PiecesConcat(a, "/" + b);
    assert a + "/" + ("/" + b) == a + "//" + b;
    LeadingSlashIgnored(b);
    PiecesConcat(a, b);
  }

  /** Leading, trailing and repeated slashes contribute nothing to the path. */
  lemma SlashesContributeNothing(a: string, b: string)
    ensures Pieces("") == []
    ensures Pieces("/" + a) == Pieces(a)
    ensures Pieces(a + "/") == Pieces(a)
    ensures Pieces(a + "//" + b) == Pieces(a + "/" + b)
  {
    EmptyRouteHasNoPieces();
    LeadingSlashIgnored(a);
    TrailingSlashIgnored(a);
    DoubledSlashIgnored(a, b);
  }

  // ---------------------------------------------------------------------------
  // Lemmas about decoding

  /** Decoding succeeds exactly when every '%' starts a decodable escape. */
  lemma {:induction false} DecodeSucceedsIff(s: string)
    ensures DecodeComponent(s).Success? <==> WellFormedEscapes(s)
  {
    if s == [] {
    } else if s[0] != '%' {
      DecodeSucceedsIff(s[1..]);
      forall i | 1 <= i < |s| ensures EscapeAt(s, i) <==> EscapeAt(s[1..], i - 1) {
      }
      assert WellFormedEscapes(s) <==> WellFormedEscapes(s[1..]) by {
        if WellFormedEscapes(s[1..]) {
          forall i | 0 <= i < |s| && s[i] == '%' ensures EscapeAt(s, i) {
            assert s[1..][i - 1] == s[i];
          }
        }
        if WellFormedEscapes(s) {
          forall j | 0 <= j < |s[1..]| && s[1..][j] == '%' ensures EscapeAt(s[1..], j) {
            assert s[j + 1] == '%';
          }
        }
      }
    } else if !EscapeAt(s, 0) {
    } else {
      DecodeSucceedsIff(s[3..]);
      forall i | 3 <= i < |s| ensures EscapeAt(s, i) <==> EscapeAt(s[3..], i - 3) {
      }
      assert WellFormedEscapes(s) <==> WellFormedEscapes(s[3..]) by {
        if WellFormedEscapes(s[3..]) {
          forall i | 0 <= i < |s| && s[i] == '%' ensures EscapeAt(s, i) {
            if i >= 3 {
              assert s[3..][i - 3] == s[i];
            }
          }
        }
        if WellFormedEscapes(s) {
          forall j | 0 <= j < |s[3..]| && s[3..][j] == '%' ensures EscapeAt(s[3..], j) {
            assert s[j + 3] == '%';
          }
        }
      }
    }
  }

  /** A piece without '%' passes through decoding unchanged. */
  lemma {:induction false} DecodeWithoutPercent(s: string)
    requires '%' !in s
    ensures DecodeComponent(s) == Success(s)
  {
    if s != [] {
      assert '%' !in s[1..];
      DecodeWithoutPercent(s[1..]);
      assert [s[0]] + s[1..] == s;
    }
  }

  /** Decoding a well-formed prefix does not depend on what follows it. */
  lemma {:induction false} DecodeConcat(x: string, y: string)
    requires DecodeComponent(x).Success?
    ensures DecodeComponent(x + y).Success? == DecodeComponent(y).Success?
    ensures DecodeComponent(y).Success? ==>
              DecodeComponent(x + y).value == DecodeComponent(x).value + DecodeComponent(y).value
  {
    if x == [] {
      assert x + y == y;
    } else if x[0] != '%' {
      assert (x + y)[0] == x[0] && (x + y)[1..] == x[1..] + y;
      DecodeConcat(x[1..], y);
    } else {
      var xy := x + y;
      assert EscapeAt(x, 0);
      assert xy[0] == x[0] && xy[1] == x[1] && xy[2] == x[2];
      assert xy[3..] == x[3..] + y;
      DecodeConcat(x[3..], y);
    }
  }

  lemma PercentEscape()
    ensures DecodeComponent("%25") == Success("%")
  {
    var e := "%25";
    assert e[0] == '%';
    assert EscapeAt(e, 0);
    assert e[3..] == [];
    assert DecodeComponent(e[3..]) == Success([]);
    assert [37 as char] + [] == "%";
  }

  /** The two escapes the reference encoder writes decode to the characters they stand for. */
  lemma DecodeEscapedChar(c: char)
    ensures DecodeComponent(EscapeChar(c)) == Success([c])
  {
    var e := EscapeChar(c);
    if c == '/' {
      assert e == "%2F";
      assert EscapeAt(e, 0);
      assert e[3..] == [];
      assert DecodeComponent(e[3..]) == Success([]);
      assert [47 as char] + [] == "/";
    } else if c == '%' {
      assert e == "%25";
      PercentEscape();
    } else {
      assert e == [c] && e[1..] == [];
      assert DecodeComponent(e[1..]) == Success([]);
      assert DecodeComponent(e) == Success([e[0]] + []);
      assert [e[0]] + [] == [c];
    }
  }

  /** Any ASCII character written as `%XX` decodes to itself: `%20` gives a space, `%2F` a slash. */
  lemma DecodePercentEncoded(c: char)
    requires c as int < 0x80
    ensures DecodeComponent(PercentEncode(c)) == Success([c])
  {
    var e := PercentEncode(c);
    assert (16 * HexValue(e[1]) + HexValue(e[2])) as char == c;
    assert e[3..] == [];
    assert DecodeComponent(e[3..]) == Success([]);
    assert [c] + [] == [c];
  }

  /**
   * Any escape of an ASCII byte decodes to the character with that code,
   * whatever the case of its hex digits: `%2f` and `%2F` both give `/`.
   */
  lemma DecodeEscape(hi: char, lo: char)
    requires IsHexDigit(hi) && IsHexDigit(lo) && 16 * HexValue(hi) + HexValue(lo) < 0x80
    ensures DecodeComponent(['%', hi, lo]) == Success([(16 * HexValue(hi) + HexValue(lo)) as char])
  {
    var e := ['%', hi, lo];
    var code := 16 * HexValue(hi) + HexValue(lo);
    assert e[1] == hi && e[2] == lo;
    assert EscapeAt(e, 0);
    assert e[3..] == [];
    assert DecodeComponent(e[3..]) == Success([]);
    assert DecodeComponent(e) == Success([code as char] + []);
    assert [code as char] + [] == [code as char];
  }

  /** An ASCII character written as `%xx` with lower-case hex digits decodes to itself too. */
  lemma DecodeLowerCaseEscape(c: char)
    requires c as int < 0x80
    ensures DecodeComponent(['%', HexDigit(c as int / 16, false), HexDigit(c as int % 16, false)]) == Success([c])
  {
    DecodeEscape(HexDigit(c as int / 16, false), HexDigit(c as int % 16, false));
  }

  /** A non-empty piece never decodes to the empty string: each escape or character gives one character. */
  lemma DecodeNonEmpty(s: string)
    requires s != "" && DecodeComponent(s).Success?
    ensures DecodeComponent(s).value != ""
  {
  }

  /** Encoding a segment and decoding it gives the segment back. */
  lemma {:induction false} DecodeEncode(s: string)
    ensures DecodeComponent(EncodeComponent(s)) == Success(s)
  {
    if s != [] {
      DecodeEncode(s[1..]);
      DecodeEscapedChar(s[0]);
      DecodeConcat(EscapeChar(s[0]), EncodeComponent(s[1..]));
      assert [s[0]] + s[1..] == s;
    }
  }

  // ---------------------------------------------------------------------------
  // Properties of the prefix path

  /** An absent or empty route parameter yields the empty path. */
  lemma AbsentOrEmptyRoute()
    ensures PrefixPath(None) == Success([])
    ensures PrefixPath(Some("")) == Success([])
  {
    assert Split("") == [""];
  }

  /**
   * The path has one element per non-empty piece of the raw fragment, in
   * order, each the decoding of its piece; it fails exactly when some piece
   * holds a malformed escape, and that failure is not caught.
   */
  lemma PrefixPathPieces(param: Option<string>)
    ensures var pieces := Pieces(RouteParam(param));
      && (PrefixPath(param).Success? <==> forall i :: 0 <= i < |pieces| ==> WellFormedEscapes(pieces[i]))
      && (PrefixPath(param).Success? ==>
            |PrefixPath(param).value| == |pieces|
            && forall i :: 0 <= i < |pieces| ==>
                 pieces[i] != "" && PrefixPath(param).value[i] == DecodeComponent(pieces[i]).value)
  {
    var pieces := Pieces(RouteParam(param));
    forall i | 0 <= i < |pieces| ensures DecodeComponent(pieces[i]).Success? <==> WellFormedEscapes(pieces[i]) {
      DecodeSucceedsIff(pieces[i]);
    }
  }

  /** The decoded path has no empty element, since the filter keeps only non-empty pieces. */
  lemma NoEmptySegments(param: Option<string>)
    ensures PrefixPath(param).Success? ==>
              forall i :: 0 <= i < |PrefixPath(param).value| ==> PrefixPath(param).value[i] != ""
  {
    var pieces := Pieces(RouteParam(param));
    if PrefixPath(param).Success? {
      forall i | 0 <= i < |PrefixPath(param).value| ensures PrefixPath(param).value[i] != "" {
        DecodeNonEmpty(pieces[i]);
      }
    }
  }

  /** For a fragment without '%', the path is exactly its non-empty pieces. */
  lemma PercentFreeRoute(param: Option<string>)
    requires '%' !in RouteParam(param)
    ensures PrefixPath(param) == Success(Pieces(RouteParam(param)))
  {
    var raw := RouteParam(param);
    var pieces := Pieces(raw);
    var split := Split(raw);
    forall i | 0 <= i < |pieces| ensures DecodeComponent(pieces[i]) == Success(pieces[i]) {
      assert pieces[i] in split;
      var j :| 0 <= j < |split| && split[j] == pieces[i];
      assert '%' !in split[j];
      DecodeWithoutPercent(pieces[i]);
    }
    var r := DecodeAll(pieces);
    assert r.Success? && |r.value| == |pieces|;
    assert r.value == pieces;
  }

  /** A non-empty fragment without a slash is a single piece. */
  lemma PiecesWithoutSlash(s: string)
    requires '/' !in s && s != ""
    ensures Pieces(s) == [s]
  {
    SplitWithoutSlash(s);
    assert NonEmpty([s]) == [s] + NonEmpty([]);
  }

  /** Decoding a concatenation of three decodable parts decodes each part. */
  lemma DecodeThree(a: string, x: string, b: string)
    requires DecodeComponent(a).Success? && DecodeComponent(x).Success? && DecodeComponent(b).Success?
    ensures DecodeComponent(a + (x + b)).Success?
    ensures DecodeComponent(a + (x + b)).value
         == DecodeComponent(a).value + (DecodeComponent(x).value + DecodeComponent(b).value)
  {
    DecodeConcat(x, b);
    DecodeConcat(a, x + b);
  }

  /** A non-empty fragment without a slash is one element: its decoding. */
  lemma PrefixPathSinglePiece(raw: string)
    requires '/' !in raw && raw != ""
    requires DecodeComponent(raw).Success?
    ensures PrefixPath(Some(raw)) == Success([DecodeComponent(raw).value])
  {
    PiecesWithoutSlash(raw);
    var r := DecodeAll([raw]);
    assert r.Success? && |r.value| == 1;
    assert r.value == [DecodeComponent(raw).value];
  }

  /**
   * Splitting comes before decoding: an encoded slash stays inside its element,
   * so `a%2Fb` is one element `a/b`, not two.
   */
  lemma EncodedSlashStaysInside(a: string, b: string)
    requires '/' !in a && '/' !in b
    requires DecodeComponent(a).Success? && DecodeComponent(b).Success?
    ensures PrefixPath(Some(a + ("%2F" + b)))
         == Success([DecodeComponent(a).value + ("/" + DecodeComponent(b).value)])
  {
    var slash := EscapeChar('/');
    assert slash == "%2F";
    DecodeEscapedChar('/');
    DecodeThree(a, slash, b);
    PrefixPathSinglePiece(a + (slash + b));
  }

  /**
   * Round trip: encoding non-empty segments, joining them with '/' and
   * decoding the result gives the segments back.
   */
  lemma RoundTrip(segments: seq<string>)
    requires forall i :: 0 <= i < |segments| ==> segments[i] != ""
    ensures PrefixPath(Some(Join(EncodeAll(segments)))) == Success(segments)
  {
    var encoded := EncodeAll(segments);
    if segments == [] {
      assert Split("") == [""];
    } else {
      forall i | 0 <= i < |encoded| ensures '/' !in encoded[i] && encoded[i] != "" {
      }
      SplitJoin(encoded);
      NonEmptyKeepsNonEmpty(encoded);
      forall i | 0 <= i < |encoded| ensures DecodeComponent(encoded[i]) == Success(segments[i]) {
        DecodeEncode(segments[i]);
      }
      assert Pieces(Join(encoded)) == encoded;
      var r := DecodeAll(encoded);
      assert r.Success? && |r.value| == |segments|;
      assert r.value == segments;
    }
  }
}
