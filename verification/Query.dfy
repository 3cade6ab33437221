/**
 The request-line side of provisioning: percent-decoding (section 2.1 of RFC 3986), finding an
 argument, and the printer that both must invert.
 */
module Query {

  // ---------------------------------------------------------------- strings as the firmware sees them

  /** `pat` from its character `j` on stands in `s` from `i + j` on. */
  predicate Stands(s: string, pat: string, i: nat, j: nat)
    decreases |pat| - j
  {
    j >= |pat| || (i + j < |s| && s[i + j] == pat[j] && Stands(s, pat, i, j + 1))
  }

  predicate MatchAt(s: string, pat: string, i: nat)
  {
    Stands(s, pat, i, 0)
  }

  lemma {:induction false} StandsMeaning(s: string, pat: string, i: nat, j: nat)
    requires j <= |pat|
    ensures Stands(s, pat, i, j) <==> (j < |pat| ==> i + |pat| <= |s|) && forall k :: j <= k < |pat| && i + k < |s| ==> s[i + k] == pat[k]
    decreases |pat| - j
  {
    if j < |pat| {
      StandsMeaning(s, pat, i, j + 1);
    }
  }

  /** `indexOf`: the first match at or after `i`, or -1. */
  function Find(s: string, pat: string, i: nat): (r: int)
    ensures r == -1 || r >= i
    decreases |s| - i
  {
    if MatchAt(s, pat, i) then i else if i >= |s| then -1 else Find(s, pat, i + 1)
  }

  /** `indexOf` of one character. */
  function FindChar(s: string, c: char, i: nat): (r: int)
    ensures r == -1 || i <= r < |s|
    decreases |s| - i
  {
    if i >= |s| then -1 else if s[i] == c then i else FindChar(s, c, i + 1)
  }

  /** `Find` answers the first match there is. */
  lemma {:induction false} FindMeaning(s: string, pat: string, i: nat)
    requires pat != []
    ensures Find(s, pat, i) != -1 ==> MatchAt(s, pat, Find(s, pat, i))
    ensures forall k :: i <= k && (Find(s, pat, i) == -1 || k < Find(s, pat, i)) ==> !MatchAt(s, pat, k)
    decreases |s| - i
  {
    if i < |s| && !MatchAt(s, pat, i) {
      FindMeaning(s, pat, i + 1);
    }
  }

  /** `lastIndexOf` of one character, or -1. */
  function FindLast(s: string, c: char): (r: int)
    ensures -1 <= r < |s|
  {
    if s == [] then -1
    else if s[|s| - 1] == c then |s| - 1
    else FindLast(s[..|s| - 1], c)
  }

  lemma {:induction false} FindLastSkips(s: string, c: char, t: string)
    requires c !in t
    ensures FindLast(s + t, c) == FindLast(s, c)
    decreases |t|
  {
    if t == [] {
      assert s + t == s;
    } else {
      var n := |t| - 1;
      assert (s + t)[..|s + t| - 1] == s + t[..n] && t[n] in t;
      FindLastSkips(s, c, t[..n]);
    }
  }

  /** `substring` with unsigned bounds: -1 is the largest bound, bounds may come swapped. */
  function Substring(s: string, left: int, right: int): string
    requires -1 <= left && -1 <= right
  {
    var l := if left == -1 then 0xFFFF_FFFF else left;
    var r := if right == -1 then 0xFFFF_FFFF else right;
    var lo, hi := if l > r then r else l, if l > r then l else r;
    if lo >= |s| then "" else s[lo..if hi > |s| then |s| else hi]
  }

  // ---------------------------------------------------------------- percent-decoding

  const LOWER := "0123456789abcdef"
  const UPPER := "0123456789ABCDEF"

  /** The value of a hexadecimal digit, looked for from `n` on, or -1. */
  function DigitFrom(c: char, n: nat): (v: int)
    requires n <= 16
    ensures -1 <= v < 16
    decreases 16 - n
  {
    if n == 16 then -1 else if c == LOWER[n] || c == UPPER[n] then n else DigitFrom(c, n + 1)
  }

  function HexValue(c: char): (v: int)
    ensures -1 <= v < 16
  {
    DigitFrom(c, 0)
  }

  /** `strtol("0x" c d, NULL, 16)`: parsing stops at the first character that is no digit. */
  function Strtol(c: char, d: char): (v: nat)
    ensures v < 256
  {
    if HexValue(c) == -1 then 0
    else if HexValue(d) == -1 then HexValue(c)
    else 16 * HexValue(c) + HexValue(d)
  }

  /** What the characters from `i` on decode to.  An escape needs two more characters to
      count as one. */
  function DecodeFrom(s: string, i: nat): string
    decreases |s| - i
  {
    if i >= |s| then ""
    else if s[i] == '%' && i + 2 < |s| then [Strtol(s[i + 1], s[i + 2]) as char] + DecodeFrom(s, i + 3)
    else [if s[i] == '+' then ' ' else s[i]] + DecodeFrom(s, i + 1)
  }

  function Decode(s: string): string
  {
    DecodeFrom(s, 0)
  }

  method UrlDecode(text: string) returns (decoded: string)
    ensures decoded == Decode(text)
  {
    decoded := "";
    var i := 0;
    while i < |text|
      invariant 0 <= i <= |text|
      invariant decoded + DecodeFrom(text, i) == Decode(text)
    {
      var c, next := DecodeNext(text, i);
      Associates(decoded, [c], DecodeFrom(text, next));
      decoded := decoded + [c];
      i := next;
    }
  }

  /** One turn of the decoding loop: the next character and where to go on. */
  method DecodeNext(text: string, start: nat) returns (c: char, i: nat)
    requires start < |text|
    ensures start < i <= |text|
    ensures DecodeFrom(text, start) == [c] + DecodeFrom(text, i)
  {
    var encoded := text[start];
    i := start + 1;
    if encoded == '%' && i + 1 < |text| {
      c := Strtol(text[i], text[i + 1]) as char;
      i := i + 2;
    } else {
      c := if encoded == '+' then ' ' else encoded;
    }
  }

  lemma Associates(a: string, b: string, c: string)
    ensures a + (b + c) == (a + b) + c
  {
  }

  lemma {:induction false} DecodeShifts(a: string, b: string, i: nat)
    ensures DecodeFrom(a + b, |a| + i) == DecodeFrom(b, i)
    decreases |b| - i
  {
    if i < |b| {
      if b[i] == '%' && i + 2 < |b| {
        DecodeShifts(a, b, i + 3);
      } else {
        DecodeShifts(a, b, i + 1);
      }
    }
  }

  /** What lies between `from` and the next ampersand. */
  function Cut(url: string, from: nat): string
    decreases |url| - from
  {
    if from >= |url| || url[from] == '&' then "" else [url[from]] + Cut(url, from + 1)
  }

  lemma {:induction false} CutIsPrefix(url: string, from: nat, end: nat)
    requires from <= end <= |url| && (end == |url| || url[end] == '&')
    requires forall k :: from <= k < end ==> url[k] != '&'
    ensures Cut(url, from) == url[from..end]
    decreases end - from
  {
    if from < end {
      CutIsPrefix(url, from + 1, end);
    }
  }

  /** `Cut` is what the code takes with `indexOf` and `substring`. */
  lemma {:induction false} CutIsSubstring(url: string, from: nat)
    requires from <= |url| < 0xFFFF_FFFF
    ensures Substring(url, from, FindChar(url, '&', from)) == Cut(url, from)
    decreases |url| - from
  {
    if from < |url| && url[from] != '&' {
      CutIsSubstring(url, from + 1);
    }
  }

  /** The text behind a match at `s` of `n` characters, up to the next ampersand. */
  function ValueAt(url: string, s: int, n: nat): string
  {
    if s < 0 then "" else Cut(url, s + n)
  }

  function UrlFindArg(url: string, arg: string): string
  {
    Decode(ValueAt(url, Find(url, "&" + arg + "=", 0), |arg| + 2))
  }

  lemma FoundInside(url: string, pat: string, s: int)
    requires pat != [] && s == Find(url, pat, 0) >= 0
    ensures s + |pat| <= |url|
  {
    FindMeaning(url, pat, 0);
    MatchFits(url, pat, s);
  }

  method FindArg(url: string, arg: string) returns (value: string)
    requires |url| < 0xFFFF_FFFF
    ensures value == UrlFindArg(url, arg)
  {
    var s := Find(url, "&" + arg + "=", 0);
    if s < 0 {
      return "";
    }
    var sLen := |arg| + 2;
    var e := FindChar(url, '&', s + sLen);
    FoundInside(url, "&" + arg + "=", s);
    CutIsSubstring(url, s + sLen);
    value := UrlDecode(Substring(url, s + sLen, e));
  }

  /** What `runServer` keeps of the request line: the query, fenced by ampersands. */
  function ConfigLine(line: string): string
  {
    "&" + Substring(line, FindChar(line, '?', 0) + 1, FindLast(line, ' ')) + "&"
  }

  // ---------------------------------------------------------------- the printer

  /** An encoder: which characters it leaves alone, whether it writes a space as `+`, and the
      case of its hexadecimal digits. */
  datatype Style = Style(keep: set<char>, plus: bool, upper: bool)

  predicate Conforms(style: Style)
  {
    '%' !in style.keep && '+' !in style.keep && '&' !in style.keep
  }

  function HexDigit(n: nat, upper: bool): char
    requires n < 16
  {
    if upper then UPPER[n] else LOWER[n]
  }

  lemma {:induction false} DigitIsFound(n: nat, upper: bool, from: nat)
    requires from <= n < 16
    ensures DigitFrom(HexDigit(n, upper), from) == n
    ensures HexDigit(n, upper) != '&'
    decreases n - from
  {
    DigitsDiffer(n, from);
    if from < n {
      DigitIsFound(n, upper, from + 1);
    }
  }

  lemma DigitsDiffer(n: nat, m: nat)
    requires n < 16 && m < 16
    ensures LOWER[n] != '&' && UPPER[n] != '&'
    ensures n != m ==> LOWER[n] != LOWER[m] && LOWER[n] != UPPER[m] && UPPER[n] != UPPER[m]
  {
  }

  /** The character is a hexadecimal digit, in either case. */
  predicate Hex(c: char)
  {
    exists k :: 0 <= k < 16 && (c == LOWER[k] || c == UPPER[k])
  }

  lemma {:induction false} NoDigitFrom(c: char, n: nat)
    requires n <= 16
    ensures DigitFrom(c, n) == -1 <==> forall k :: n <= k < 16 ==> c != LOWER[k] && c != UPPER[k]
    decreases 16 - n
  {
    if n < 16 {
      NoDigitFrom(c, n + 1);
    }
  }

  lemma HexMeaning(c: char)
    ensures HexValue(c) == -1 <==> !Hex(c)
  {
    NoDigitFrom(c, 0);
  }

  /** Escapes that are none: with no hexadecimal digit behind the percent sign they stand for NUL,
      with one for that digit, and both characters are gone in any case. */
  lemma MalformedEscapes(c: char, d: char, rest: string)
    ensures !Hex(c) ==> Decode(['%', c, d] + rest) == [0 as char] + Decode(rest)
    ensures Hex(c) && !Hex(d) ==> HexValue(c) >= 0 && Decode(['%', c, d] + rest) == [HexValue(c) as char] + Decode(rest)
  {
    HexMeaning(c);
    HexMeaning(d);
    DecodeShifts(['%', c, d], rest, 0);
  }

  /** Text without percent and plus signs stays as it is, and so does an escape that is cut off at
      the end. */
  lemma {:induction false} PlainTextStays(s: string, c: char)
    requires '%' !in s && '+' !in s && c != '%' && c != '+'
    ensures Decode(s) == s && Decode(s + "%") == s + "%" && Decode(s + ['%', c]) == s + ['%', c]
    decreases |s|
  {
    if s == [] {
      assert s + "%" == "%" && s + ['%', c] == ['%', c];
      assert DecodeFrom("%", 1) == "" && DecodeFrom(['%', c], 2) == "";
      assert DecodeFrom(['%', c], 1) == [c];
    } else {
      PlainTextStays(s[1..], c);
      assert s[0] in s;
      FirstStays(s[0], s[1..]);
      FirstStays(s[0], s[1..] + "%");
      FirstStays(s[0], s[1..] + ['%', c]);
      assert s == [s[0]] + s[1..];
      assert s + "%" == [s[0]] + (s[1..] + "%") && s + ['%', c] == [s[0]] + (s[1..] + ['%', c]);
    }
  }

  lemma FirstStays(c: char, rest: string)
    requires c != '%' && c != '+'
    ensures Decode([c] + rest) == [c] + Decode(rest)
  {
    DecodeShifts([c], rest, 0);
  }

  predicate Bytes(s: string)
  {
    forall i :: 0 <= i < |s| ==> s[i] as int < 256
  }

  function EncodeChar(style: Style, c: char): string
    requires c as int < 256
  {
    if c == ' ' && style.plus then "+"
    else if c in style.keep then [c]
    else ['%', HexDigit(c as int / 16, style.upper), HexDigit(c as int % 16, style.upper)]
  }

  function Encode(style: Style, s: string): string
    requires Bytes(s)
  {
    if s == [] then [] else EncodeChar(style, s[0]) + Encode(style, s[1..])
  }

  lemma HexPair(n: nat, upper: bool)
    requires n < 256
    ensures Strtol(HexDigit(n / 16, upper), HexDigit(n % 16, upper)) == n
    ensures HexDigit(n / 16, upper) != '&' && HexDigit(n % 16, upper) != '&'
  {
    DigitIsFound(n / 16, upper, 0);
    DigitIsFound(n % 16, upper, 0);
  }

  lemma DecodeEncodedChar(style: Style, c: char, rest: string)
    requires Conforms(style) && c as int < 256
    ensures Decode(EncodeChar(style, c) + rest) == [c] + Decode(rest)
    ensures '&' !in EncodeChar(style, c)
  {
    DecodeShifts(EncodeChar(style, c), rest, 0);
    HexPair(c as int, style.upper);
  }

  /** Decoding inverts every conforming encoder on every byte string. */
  lemma {:induction false} DecodeInvertsEncode(style: Style, s: string)
    requires Conforms(style) && Bytes(s)
    ensures Decode(Encode(style, s)) == s
    ensures '&' !in Encode(style, s)
    decreases |s|
  {
    if s != [] {
      DecodeInvertsEncode(style, s[1..]);
      DecodeEncodedChar(style, s[0], Encode(style, s[1..]));
    }
  }

  /** A query argument with its value still to be encoded. */
  datatype Pair = Pair(key: string, value: string)

  predicate Plain(pairs: seq<Pair>)
  {
    forall p :: p in pairs ==> '&' !in p.key && '=' !in p.key && Bytes(p.value)
  }

  function Print(style: Style, p: Pair): string
    requires Bytes(p.value)
  {
    p.key + "=" + Encode(style, p.value)
  }

  /** `k1=v1&k2=v2...` */
  function PrintQuery(style: Style, pairs: seq<Pair>): string
    requires Plain(pairs)
  {
    if pairs == [] then ""
    else if |pairs| == 1 then Print(style, pairs[0])
    else Print(style, pairs[0]) + "&" + PrintQuery(style, pairs[1..])
  }

  /** A request line: `head?query tail`. */
  function RequestLine(style: Style, head: string, pairs: seq<Pair>, tail: string): string
    requires Plain(pairs)
  {
    head + "?" + PrintQuery(style, pairs) + " " + tail
  }

  /** The value of the first pair with this key; empty if there is none. */
  function FirstValue(pairs: seq<Pair>, key: string): string
  {
    if pairs == [] then "" else if pairs[0].key == key then pairs[0].value else FirstValue(pairs[1..], key)
  }

  // ---------------------------------------------------------------- finding an argument

  /** The fenced form: every pair preceded by `&`, and one more `&` at the end. */
  function Fenced(style: Style, pairs: seq<Pair>): string
    requires Plain(pairs)
  {
    if pairs == [] then "&" else "&" + Print(style, pairs[0]) + Fenced(style, pairs[1..])
  }

  lemma {:induction false} FencedQuery(style: Style, pairs: seq<Pair>)
    requires Plain(pairs) && pairs != []
    ensures "&" + PrintQuery(style, pairs) + "&" == Fenced(style, pairs)
    decreases |pairs|
  {
    if |pairs| > 1 {
      FencedQuery(style, pairs[1..]);
    }
  }

  /** What lies between the first `?` and the last space of a request line is its query. */
  lemma ConfigLineExtractsQuery(style: Style, head: string, pairs: seq<Pair>, tail: string)
    requires Plain(pairs) && '?' !in head && ' ' !in tail
    requires |RequestLine(style, head, pairs, tail)| < 0xFFFF_FFFF
    ensures ConfigLine(RequestLine(style, head, pairs, tail)) == "&" + PrintQuery(style, pairs) + "&"
  {
    var query := PrintQuery(style, pairs);
    CutOut(head, query, tail);
  }

  lemma {:induction false} FirstQuestionMark(head: string, rest: string, i: nat)
    requires '?' !in head && i <= |head|
    ensures FindChar(head + ("?" + rest), '?', i) == |head|
    decreases |head| - i
  {
    if i < |head| {
      assert head[i] in head;
      FirstQuestionMark(head, rest, i + 1);
    }
  }

  lemma LastSpace(front: string, tail: string)
    requires ' ' !in tail
    ensures FindLast(front + (" " + tail), ' ') == |front|
  {
    assert front + (" " + tail) == (front + " ") + tail;
    FindLastSkips(front + " ", ' ', tail);
  }

  lemma CutOut(head: string, query: string, tail: string)
    requires '?' !in head && ' ' !in tail && |head + "?" + query + " " + tail| < 0xFFFF_FFFF
    ensures ConfigLine(head + "?" + query + " " + tail) == "&" + query + "&"
  {
    var line := head + "?" + query + " " + tail;
    assert line == head + ("?" + (query + " " + tail)) == (head + "?" + query) + (" " + tail);
    FirstQuestionMark(head, query + " " + tail, 0);
    LastSpace(head + "?" + query, tail);
    assert line[|head| + 1..|head| + 1 + |query|] == query;
  }

  lemma {:induction false} FindSkips(s: string, pat: string, i: nat, j: nat)
    requires i <= j <= |s|
    requires forall k :: i <= k < j ==> !MatchAt(s, pat, k)
    ensures Find(s, pat, i) == Find(s, pat, j)
    decreases j - i
  {
    if i < j {
      FindSkips(s, pat, i + 1, j);
    }
  }

  lemma {:induction false} StandsShifts(a: string, b: string, pat: string, i: nat, j: nat)
    ensures Stands(a + b, pat, |a| + i, j) == Stands(b, pat, i, j)
    decreases |pat| - j
  {
    if j < |pat| {
      StandsShifts(a, b, pat, i, j + 1);
    }
  }

  /** A match inside the second part of a string is a match of that part, shifted. */
  lemma {:induction false} FindShifts(a: string, b: string, pat: string, i: nat)
    ensures Find(a + b, pat, |a| + i) == if Find(b, pat, i) == -1 then -1 else |a| + Find(b, pat, i)
    decreases |b| - i
  {
    StandsShifts(a, b, pat, i, 0);
    if i < |b| {
      FindShifts(a, b, pat, i + 1);
    }
  }

  /** Two keys without `=` that are followed by `=` in the same string are the same key. */
  lemma {:induction false} SameKey(a: string, b: string, x: string, y: string)
    requires a + ("=" + x) == b + ("=" + y) && '=' !in a && '=' !in b
    ensures a == b
    decreases |a|
  {
    var l, r := a + ("=" + x), b + ("=" + y);
    assert (a == [] ==> l[0] == '=') && (b == [] ==> r[0] == '=');
    assert (a != [] ==> l[0] == a[0] && a[0] in a) && (b != [] ==> r[0] == b[0] && b[0] in b);
    if a != [] {
      assert l[1..] == a[1..] + ("=" + x) && r[1..] == b[1..] + ("=" + y);
      SameKey(a[1..], b[1..], x, y);
    }
  }

  /** `&key=` matches at the start of a pair only if it is that pair's key. */
  lemma MatchMeansKey(key: string, p: Pair, e: string, rest: string)
    requires '=' !in key && '=' !in p.key
    requires MatchAt("&" + p.key + "=" + e + rest, "&" + key + "=", 0)
    ensures key == p.key
  {
    var s := "&" + p.key + "=" + e + rest;
    var pat := "&" + key + "=";
    MatchedPrefix(s, pat);
    var x := s[|pat|..];
    assert s == "&" + (p.key + ("=" + (e + rest))) == "&" + (key + ("=" + x));
    assert s[1..] == p.key + ("=" + (e + rest)) && s[1..] == key + ("=" + x);
    SameKey(key, p.key, x, e + rest);
  }

  lemma MatchedPrefix(s: string, pat: string)
    requires MatchAt(s, pat, 0)
    ensures |pat| <= |s| && s == pat + s[|pat|..]
  {
    StandsMeaning(s, pat, 0, 0);
  }

  lemma MatchFits(s: string, pat: string, k: nat)
    requires MatchAt(s, pat, k) && pat != []
    ensures k + |pat| <= |s| && s[k] == pat[0] && s[k + |pat| - 1] == pat[|pat| - 1]
  {
    StandsMeaning(s, pat, k, 0);
  }

  /** Inside a printed pair there is no ampersand, so nothing can match there. */
  lemma NoMatchInside(style: Style, p: Pair, rest: string, key: string)
    requires Conforms(style) && Plain([p])
    ensures forall k :: 1 <= k <= |Print(style, p)| ==>
              !MatchAt("&" + Print(style, p) + rest, "&" + key + "=", k)
  {
    var body := Print(style, p);
    var s, pat := "&" + body + rest, "&" + key + "=";
    assert p in [p];
    DecodeInvertsEncode(style, p.value);
    forall k | 1 <= k <= |body|
      ensures !MatchAt(s, pat, k)
    {
      assert s[k] == body[k - 1] && body[k - 1] in body;
      if MatchAt(s, pat, k) {
        MatchFits(s, pat, k);
      }
    }
  }

  /** Cutting behind the `=` of the first pair gives its encoded value. */
  lemma FirstPairCut(style: Style, p: Pair, rest: string)
    requires Conforms(style) && Plain([p]) && rest != [] && rest[0] == '&'
    ensures Cut("&" + Print(style, p) + rest, |p.key| + 2) == Encode(style, p.value)
  {
    assert p in [p];
    var e := Encode(style, p.value);
    var s := "&" + Print(style, p) + rest;
    var from := |p.key| + 2;
    DecodeInvertsEncode(style, p.value);
    assert s == ("&" + p.key + "=") + e + rest;
    forall k | from <= k < from + |e|
      ensures s[k] != '&'
    {
      assert s[k] == e[k - from] && e[k - from] in e;
    }
    CutIsPrefix(s, from, from + |e|);
    assert s[from..from + |e|] == e;
  }

  /** A pair that is asked for and comes first is cut out and decoded. */
  lemma FirstPairFound(style: Style, p: Pair, rest: string)
    requires Conforms(style) && Plain([p]) && rest != [] && rest[0] == '&'
    ensures UrlFindArg("&" + Print(style, p) + rest, p.key) == p.value
  {
    assert p in [p];
    var s, pat := "&" + Print(style, p) + rest, "&" + p.key + "=";
    FirstPairCut(style, p, rest);
    DecodeInvertsEncode(style, p.value);
    assert s == pat + (Encode(style, p.value) + rest);
    StandsMeaning(s, pat, 0, 0);
  }

  lemma {:induction false} CutShifts(a: string, b: string, from: nat)
    ensures Cut(a + b, |a| + from) == Cut(b, from)
    decreases |b| - from
  {
    if from < |b| {
      CutShifts(a, b, from + 1);
    }
  }

  /** Nothing matches before `rest`: the lookup is a lookup in `rest`. */
  lemma LookupShifts(a: string, rest: string, pat: string)
    requires forall k :: 0 <= k < |a| ==> !MatchAt(a + rest, pat, k)
    ensures ValueAt(a + rest, Find(a + rest, pat, 0), |pat|) == ValueAt(rest, Find(rest, pat, 0), |pat|)
  {
    FoundBehind(a, rest, pat);
    ValueShifts(a, rest, Find(rest, pat, 0), Find(a + rest, pat, 0), |pat|);
  }

  lemma ValueShifts(a: string, rest: string, f: int, g: int, n: nat)
    requires f >= -1 && g == if f == -1 then -1 else |a| + f
    ensures ValueAt(a + rest, g, n) == ValueAt(rest, f, n)
  {
    if f >= 0 {
      CutShifts(a, rest, f + n);
    }
  }

  lemma FoundBehind(a: string, rest: string, pat: string)
    requires forall k :: 0 <= k < |a| ==> !MatchAt(a + rest, pat, k)
    ensures Find(a + rest, pat, 0) == if Find(rest, pat, 0) == -1 then -1 else |a| + Find(rest, pat, 0)
  {
    FindSkips(a + rest, pat, 0, |a|);
    FindShifts(a, rest, pat, 0);
  }

  /** A pair with another key is passed over. */
  lemma OtherPairSkipped(style: Style, p: Pair, rest: string, key: string)
    requires Conforms(style) && Plain([p]) && '=' !in key && key != p.key
    requires rest != []
    ensures UrlFindArg("&" + Print(style, p) + rest, key) == UrlFindArg(rest, key)
  {
    var a := "&" + Print(style, p);
    assert p in [p];
    NoMatchInside(style, p, rest, key);
    var e := Encode(style, p.value);
    assert a + rest == "&" + p.key + "=" + e + rest;
    if MatchAt(a + rest, "&" + key + "=", 0) {
      MatchMeansKey(key, p, e, rest);
    }
    LookupShifts(a, rest, "&" + key + "=");
  }

  lemma {:induction false} FencedLookup(style: Style, pairs: seq<Pair>, key: string)
    requires Conforms(style) && Plain(pairs) && '=' !in key && '&' !in key
    ensures UrlFindArg(Fenced(style, pairs), key) == FirstValue(pairs, key)
    ensures Fenced(style, pairs) != [] && Fenced(style, pairs)[0] == '&'
    decreases |pairs|
  {
    if pairs != [] {
      var p, rest := pairs[0], Fenced(style, pairs[1..]);
      FencedLookup(style, pairs[1..], key);
      assert Plain([p]);
      if p.key == key {
        FirstPairFound(style, p, rest);
      } else {
        OtherPairSkipped(style, p, rest, key);
      }
    }
  }

  /** Round trip: print any list of pairs with any conforming encoder, cut the query out of
      the request line and look a key up: the value of its first pair comes back, whatever
      bytes it holds, and an absent key gives the empty string. */
  lemma LookupInvertsPrinting(style: Style, head: string, pairs: seq<Pair>, tail: string, key: string)
    requires Conforms(style) && Plain(pairs) && '?' !in head && ' ' !in tail
    requires '=' !in key && '&' !in key
    requires |RequestLine(style, head, pairs, tail)| < 0xFFFF_FFFF
    ensures UrlFindArg(ConfigLine(RequestLine(style, head, pairs, tail)), key) == FirstValue(pairs, key)
  {
    ConfigLineExtractsQuery(style, head, pairs, tail);
    if pairs == [] {
      NothingBetweenFences(key);
    } else {
      FencedQuery(style, pairs);
      FencedLookup(style, pairs, key);
    }
  }

  lemma NothingBetweenFences(key: string)
    requires '&' !in key
    ensures UrlFindArg("&" + "" + "&", key) == ""
  {
    var s, pat := "&" + "" + "&", "&" + key + "=";
    assert s == "&&";
    FindMeaning(s, pat, 0);
    if Find(s, pat, 0) != -1 {
      MatchFits(s, pat, Find(s, pat, 0));
    }
  }
}
