/** The response-cache key of core/utils.py: `namespace:path?query`, built
    from the request alone. */
module CacheKeys {

  /** The parts of a request the key is built from: the URL path and the
      query parameters in the order the client sent them. */
  datatype Request = Request(path: string, params: seq<(string, string)>)

  // ---------------------------------------------------------------------------
  // `urllib.parse.quote_plus`, which `urlencode` applies to every name and
  // value: the text as UTF-8, each byte kept when it is a letter, a digit or
  // one of `_.-~`, a space as `+`, any other byte as `%XX` in upper-case hex.

  type Byte = b: int | 0 <= b < 256

  /** The UTF-8 bytes of one character. */
  function Utf8(c: char): (bs: seq<Byte>)
    ensures 1 <= |bs| <= 4
  {
    var n := c as int;
    if n < 0x80 then [n]
    else if n < 0x800 then [0xC0 + n / 64, 0x80 + n % 64]
    else if n < 0x10000 then [0xE0 + n / 4096, 0x80 + (n / 64) % 64, 0x80 + n % 64]
    else [0xF0 + n / 262144, 0x80 + (n / 4096) % 64, 0x80 + (n / 64) % 64, 0x80 + n % 64]
  }

  /** `s.encode("utf-8")`. */
  function Utf8Encode(s: string): seq<Byte> {
    if s == [] then [] else Utf8(s[0]) + Utf8Encode(s[1..])
  }

  /** The bytes `quote` leaves as they are. */
  predicate AlwaysSafe(b: Byte) {
    || 0x41 <= b <= 0x5A || 0x61 <= b <= 0x7A || 0x30 <= b <= 0x39
    || b == 0x5F || b == 0x2E || b == 0x2D || b == 0x7E
  }

  const HexDigits: string := "0123456789ABCDEF"

  function QuoteByte(b: Byte): string {
    if AlwaysSafe(b) then [b as char]
    else if b == 0x20 then "+"
    else ['%', HexDigits[b / 16], HexDigits[b % 16]]
  }

  function QuoteBytes(bs: seq<Byte>): string {
    if bs == [] then "" else QuoteByte(bs[0]) + QuoteBytes(bs[1..])
  }

  /** `quote_plus(s, safe="")`. */
  function QuotePlus(s: string): string {
    QuoteBytes(Utf8Encode(s))
  }

  // The inverse: `unquote_plus`, as the query string is parsed back.

  /** The value of a hex digit of either case, `-1` for any other character. */
  function HexValue(c: char): (v: int)
    ensures -1 <= v < 16
  {
    if '0' <= c <= '9' then c as int - '0' as int
    else if 'A' <= c <= 'F' then c as int - 'A' as int + 10
    else if 'a' <= c <= 'f' then c as int - 'a' as int + 10
    else -1
  }

  /** `+` becomes a space and `%XX` the byte it names; any other character
      stands for its own UTF-8 bytes. */
  function UnquoteBytes(s: string): seq<Byte>
    decreases |s|
  {
    if s == [] then []
    else if s[0] == '+' then [0x20] + UnquoteBytes(s[1..])
    else if s[0] == '%' && |s| >= 3 && HexValue(s[1]) >= 0 && HexValue(s[2]) >= 0 then
      [HexValue(s[1]) * 16 + HexValue(s[2])] + UnquoteBytes(s[3..])
    else Utf8(s[0]) + UnquoteBytes(s[1..])
  }

  /** How many bytes a UTF-8 sequence starting with `b` has; 0 when no
      sequence starts with it. */
  function SequenceLength(b: Byte): nat {
    if b < 0x80 then 1
    else if 0xC0 <= b < 0xE0 then 2
    else if 0xE0 <= b < 0xF0 then 3
    else if 0xF0 <= b < 0xF8 then 4
    else 0
  }

  predicate Continuation(b: Byte) {
    0x80 <= b < 0xC0
  }

  /** The code point a complete sequence encodes. */
  function CodePoint(bs: seq<Byte>): int
    requires 1 <= |bs| <= 4
  {
    var b: seq<int> := bs;
    if |b| == 1 then b[0]
    else if |b| == 2 then (b[0] - 0xC0) * 64 + (b[1] - 0x80)
    else if |b| == 3 then (b[0] - 0xE0) * 4096 + (b[1] - 0x80) * 64 + (b[2] - 0x80)
    else (b[0] - 0xF0) * 262144 + (b[1] - 0x80) * 4096 + (b[2] - 0x80) * 64 + (b[3] - 0x80)
  }

  predicate Scalar(n: int) {
    0 <= n < 0xD800 || 0xE000 <= n < 0x110000
  }

  const Replacement: char := '\U{FFFD}'

  /** `bytes.decode("utf-8", errors="replace")`: a byte that does not start
      a complete sequence becomes U+FFFD. */
  function Utf8Decode(bs: seq<Byte>): string
    decreases |bs|
  {
    if bs == [] then ""
    else
      var n := SequenceLength(bs[0]);
      if 1 <= n <= |bs| && (forall i | 1 <= i < n :: Continuation(bs[i])) && Scalar(CodePoint(bs[..n])) then
        [CodePoint(bs[..n]) as char] + Utf8Decode(bs[n..])
      else [Replacement] + Utf8Decode(bs[1..])
  }

  /** `unquote_plus(s)`. */
  function Unquote(s: string): string {
    Utf8Decode(UnquoteBytes(s))
  }

  lemma Utf8CharDecodes(c: char, rest: seq<Byte>)
    ensures Utf8Decode(Utf8(c) + rest) == [c] + Utf8Decode(rest)
  {
    var n := c as int;
    var bs := Utf8(c) + rest;
    var k := |Utf8(c)|;
    assert bs[..k] == Utf8(c) && bs[k..] == rest;
    if n >= 0x80 {
      assert n == (n / 64) * 64 + n % 64;
      if n >= 0x800 {
        assert n / 64 == (n / 4096) * 64 + (n / 64) % 64;
        if n >= 0x10000 {
          assert n / 4096 == (n / 262144) * 64 + (n / 4096) % 64;
        }
      }
    }
    assert CodePoint(bs[..k]) == n;
  }

  lemma {:induction false} Utf8RoundTrip(s: string)
    ensures Utf8Decode(Utf8Encode(s)) == s
  {
    if s != [] {
      Utf8CharDecodes(s[0], Utf8Encode(s[1..]));
      Utf8RoundTrip(s[1..]);
    }
  }

  lemma QuotedByteUnquotes(b: Byte, rest: string)
    ensures UnquoteBytes(QuoteByte(b) + rest) == [b] + UnquoteBytes(rest)
  {
    var s := QuoteByte(b) + rest;
    if AlwaysSafe(b) {
      assert s[0] == b as char && s[1..] == rest;
    } else if b == 0x20 {
      assert s[1..] == rest;
    } else {
      assert HexValue(HexDigits[b / 16]) == b / 16;
      assert HexValue(HexDigits[b % 16]) == b % 16;
      assert s[3..] == rest;
    }
  }

  lemma {:induction false} QuoteBytesRoundTrip(bs: seq<Byte>)
    ensures UnquoteBytes(QuoteBytes(bs)) == bs
  {
    if bs != [] {
      QuotedByteUnquotes(bs[0], QuoteBytes(bs[1..]));
      QuoteBytesRoundTrip(bs[1..]);
    }
  }

  /** `unquote_plus` undoes `quote_plus`: no two texts are quoted alike. */
  lemma QuotePlusRoundTrip(s: string)
    ensures Unquote(QuotePlus(s)) == s
  {
    QuoteBytesRoundTrip(Utf8Encode(s));
    Utf8RoundTrip(s);
  }

  /** A quoted text never holds the two separators of a query string. */
  lemma {:induction false} QuotedHasNoSeparators(bs: seq<Byte>)
    ensures '&' !in QuoteBytes(bs) && '=' !in QuoteBytes(bs)
  {
    if bs != [] {
      QuotedHasNoSeparators(bs[1..]);
      assert '&' !in HexDigits && '=' !in HexDigits;
    }
  }

  // ---------------------------------------------------------------------------
  // The query string.

  /** One `key=value` pair as `urlencode` renders it. */
  function Pair(p: (string, string)): string {
    QuotePlus(p.0) + "=" + QuotePlus(p.1)
  }

  /** `str(request.query_params)`, that is `urlencode` of the pairs in
      order: each pair rendered, joined by `&`. */
  function QueryString(params: seq<(string, string)>): string {
    if params == [] then ""
    else if |params| == 1 then Pair(params[0])
    else Pair(params[0]) + "&" + QueryString(params[1..])
  }

  /** Where `c` first occurs in `s`, or `|s|`. */
  function FirstIndex(s: string, c: char): (i: nat)
    ensures i <= |s| && c !in s[..i] && (i < |s| ==> s[i] == c)
  {
    if s == [] then 0
    else if s[0] == c then 0
    else
      var i := 1 + FirstIndex(s[1..], c);
      assert s[..i] == [s[0]] + s[1..][..i - 1];
      i
  }

  /** The query string cut at every `&`. */
  function Pieces(s: string): (ps: seq<string>)
    ensures |ps| >= 1
    decreases |s|
  {
    var i := FirstIndex(s, '&');
    if i == |s| then [s] else [s[..i]] + Pieces(s[i + 1..])
  }

  /** One piece split at its first `=`, both halves unquoted; a piece with
      no `=` is a name with an empty value. */
  function ParsePair(piece: string): (string, string) {
    var i := FirstIndex(piece, '=');
    if i == |piece| then (Unquote(piece), "") else (Unquote(piece[..i]), Unquote(piece[i + 1..]))
  }

  function ParsePieces(pieces: seq<string>): seq<(string, string)> {
    if pieces == [] then []
    else if pieces[0] == "" then ParsePieces(pieces[1..])
    else [ParsePair(pieces[0])] + ParsePieces(pieces[1..])
  }

  /** `parse_qsl(query, keep_blank_values=True)`, as Starlette reads a query
      string into `query_params`: empty pieces are skipped. */
  function ParseQuery(s: string): seq<(string, string)> {
    ParsePieces(Pieces(s))
  }

  lemma FirstIndexAfter(a: string, c: char, b: string)
    requires c !in a
    ensures FirstIndex(a + [c] + b, c) == |a|
  {
    var s := a + [c] + b;
    var i := FirstIndex(s, c);
    assert s[..|a|] == a && s[|a|] == c;
  }

  lemma PairParses(p: (string, string))
    ensures '&' !in Pair(p) && Pair(p) != ""
    ensures ParsePair(Pair(p)) == p
  {
    QuotedHasNoSeparators(Utf8Encode(p.0));
    QuotedHasNoSeparators(Utf8Encode(p.1));
    var k, v := QuotePlus(p.0), QuotePlus(p.1);
    FirstIndexAfter(k, '=', v);
    assert (k + "=" + v)[..|k|] == k && (k + "=" + v)[|k| + 1..] == v;
    QuotePlusRoundTrip(p.0);
    QuotePlusRoundTrip(p.1);
  }

  /** A piece without `&` is cut off whole, the rest is cut on its own. */
  lemma PiecesJoined(first: string, rest: string)
    requires '&' !in first
    ensures Pieces(first + "&" + rest) == [first] + Pieces(rest)
  {
    var s := first + "&" + rest;
    FirstIndexAfter(first, '&', rest);
    assert s[..|first|] == first && s[|first| + 1..] == rest;
  }

  lemma PiecesSingle(first: string)
    requires '&' !in first
    ensures Pieces(first) == [first]
  {
    assert FirstIndex(first, '&') == |first|;
  }

  lemma ParsePiecesCons(x: string, ps: seq<string>)
    requires x != ""
    ensures ParsePieces([x] + ps) == [ParsePair(x)] + ParsePieces(ps)
  {
    assert ([x] + ps)[1..] == ps;
  }

  /** Parsing the query string gives back the pairs it was built from. */
  lemma {:induction false} QueryStringRoundTrip(params: seq<(string, string)>)
    ensures ParseQuery(QueryString(params)) == params
  {
    if params == [] {
      assert Pieces("") == [""];
      assert ParsePieces([""]) == ParsePieces([]);
    } else {
      PairParses(params[0]);
      var first := Pair(params[0]);
      if |params| == 1 {
        PiecesSingle(first);
        ParsePiecesCons(first, []);
        assert [first] + [] == [first];
      } else {
        var rest := QueryString(params[1..]);
        PiecesJoined(first, rest);
        ParsePiecesCons(first, Pieces(rest));
        QueryStringRoundTrip(params[1..]);
        assert params == [params[0]] + params[1..];
      }
    }
  }

  /** `custom_key_builder`: the function being cached, the response and any
      further arguments are accepted and ignored. */
  function CustomKeyBuilder<F, Response, Extra>(func: F, namespace: string, request: Request, response: Response,
                                                extra: seq<Extra>): string
  {
    Key(namespace, request.path, QueryString(request.params))
  }

  /** The key format itself. */
  function Key(namespace: string, path: string, query: string): string {
    namespace + ":" + path + "?" + query
  }

  /** Reads the query back out of a key, knowing its namespace and path. */
  function QueryOf(namespace: string, path: string, key: string): string
    requires |namespace| + |path| + 2 <= |key|
  {
    key[|namespace| + |path| + 2..]
  }

  /** The key starts with the namespace and a colon, then the path, then a
      question mark, which is there even for an empty query; the rest is the
      query, verbatim. */
  lemma KeyLayout(namespace: string, path: string, query: string)
    ensures var key := Key(namespace, path, query);
      && |key| == |namespace| + |path| + 2 + |query|
      && key[..|namespace|] == namespace && key[|namespace|] == ':'
      && key[|namespace| + 1..|namespace| + 1 + |path|] == path
      && key[|namespace| + 1 + |path|] == '?'
      && QueryOf(namespace, path, key) == query
  {
    var key := Key(namespace, path, query);
    assert key == namespace + ([':'] + (path + (['?'] + query)));
  }

  /** With the namespace and path fixed, different query strings give different keys. */
  lemma QueryInjective(namespace: string, path: string, q1: string, q2: string)
    requires Key(namespace, path, q1) == Key(namespace, path, q2)
    ensures q1 == q2
  {
    KeyLayout(namespace, path, q1);
    KeyLayout(namespace, path, q2);
  }

  /** An empty query still ends the key with `?`. */
  lemma EmptyQueryKey(namespace: string, path: string)
    ensures Key(namespace, path, QueryString([])) == namespace + ":" + path + "?"
  {
  }

  /** Different parameter lists make different keys: nothing in a name or
      a value can pass for a separator. */
  lemma DifferentParamsMiss(namespace: string, path: string, p: seq<(string, string)>, q: seq<(string, string)>)
    requires p != q
    ensures Key(namespace, path, QueryString(p)) != Key(namespace, path, QueryString(q))
  {
    QueryStringRoundTrip(p);
    QueryStringRoundTrip(q);
    KeyLayout(namespace, path, QueryString(p));
    KeyLayout(namespace, path, QueryString(q));
  }

  /** The same parameters in another order make another key: the query
      string is used as sent, not normalised. */
  lemma ReorderedParamsMiss(namespace: string, path: string, p: seq<(string, string)>, q: seq<(string, string)>)
    requires multiset(p) == multiset(q) && p != q
    ensures Key(namespace, path, QueryString(p)) != Key(namespace, path, QueryString(q))
  {
    DifferentParamsMiss(namespace, path, p, q);
  }

  /** Nothing but the namespace and the request decides the key. */
  lemma KeyIgnoresCallAndResponse<F, Response, Extra>(f1: F, f2: F, namespace: string, request: Request,
                                                     r1: Response, r2: Response, x1: seq<Extra>, x2: seq<Extra>)
    ensures CustomKeyBuilder(f1, namespace, request, r1, x1) == CustomKeyBuilder(f2, namespace, request, r2, x2)
  {
  }
}
