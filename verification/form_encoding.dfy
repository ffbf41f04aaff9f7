/** `application/x-www-form-urlencoded` as PHP produces it: `urlencode`
    (the RFC 1738 flavour `http_build_query` uses by default) and
    `http_build_query` over a list of key/value pairs, together with the
    matching decoder. The decoder is the partner that shows the encoding
    loses nothing: decoding an encoding gives back exactly what was encoded,
    so the encoding is injective. */
module FormEncoding {
  import opened Optional
  import opened Lists

  type Byte = x: int | 0 <= x < 256

  /** Characters `urlencode` copies unchanged. */
  predicate Unreserved(c: char) {
    || 'a' <= c <= 'z' || 'A' <= c <= 'Z' || '0' <= c <= '9'
    || c == '-' || c == '_' || c == '.'
  }

  function HexDigit(d: int): char
    requires 0 <= d < 16
  {
    "0123456789ABCDEF"[d]
  }

  function HexValue(c: char): (r: Option<int>)
    ensures r.Some? ==> 0 <= r.value < 16
  {
    if '0' <= c <= '9' then Some(c as int - '0' as int)
    else if 'A' <= c <= 'F' then Some(c as int - 'A' as int + 10)
    else if 'a' <= c <= 'f' then Some(c as int - 'a' as int + 10)
    else None
  }

  /** One byte as `%XY` with upper-case hexadecimal digits. */
  function PercentByte(b: Byte): string {
    ['%', HexDigit(b / 16), HexDigit(b % 16)]
  }

  /** What `urlencode` may emit: unreserved characters, `+` and `%`. */
  predicate UrlSafe(c: char) {
    Unreserved(c) || c == '+' || c == '%'
  }

  function PercentBytes(bs: seq<Byte>): (s: string)
    ensures |s| == 3 * |bs|
    ensures bs != [] ==> s[0] == '%'
    ensures forall i :: 0 <= i < |s| ==> UrlSafe(s[i])
  {
    if bs == [] then [] else PercentByte(bs[0]) + PercentBytes(bs[1..])
  }

  /** The UTF-8 encoding of a Unicode scalar value, which is how PHP holds
      non-ASCII text in its byte strings. */
  function Utf8(c: char): (bs: seq<Byte>)
    ensures 1 <= |bs| <= 4
  {
    var n := c as int;
    if n < 0x80 then [n]
    else if n < 0x800 then [0xC0 + n / 64, 0x80 + n % 64]
    else if n < 0x10000 then [0xE0 + n / 4096, 0x80 + (n / 64) % 64, 0x80 + n % 64]
    else [0xF0 + n / 262144, 0x80 + (n / 4096) % 64, 0x80 + (n / 64) % 64, 0x80 + n % 64]
  }

  /** `urlencode` of one character. */
  function EncodeChar(c: char): (s: string)
    ensures |s| > 0
    ensures s[0] != '&' && s[0] != '='
    ensures forall i :: 0 <= i < |s| ==> UrlSafe(s[i])
  {
    if Unreserved(c) then [c]
    else if c == ' ' then "+"
    else PercentBytes(Utf8(c))
  }

  /** `urlencode`: letters, digits and `-_.` are kept, a space becomes `+`,
      and every other character becomes the `%XY` escapes of its UTF-8
      bytes, so the result holds only those characters. */
  function Encode(s: string): (r: string)
    ensures |r| >= |s|
    ensures forall i :: 0 <= i < |r| ==> UrlSafe(r[i])
  {
    if s == [] then [] else EncodeChar(s[0]) + Encode(s[1..])
  }

  // ---------------------------------------------------------------- decoding

  /** Reads one `%XY` escape from the front of `s`. */
  function ReadByte(s: string): (r: Option<(Byte, string)>)
    ensures r.Some? ==> |r.value.1| == |s| - 3
  {
    if |s| >= 3 && s[0] == '%' && HexValue(s[1]).Some? && HexValue(s[2]).Some?
    then Some((HexValue(s[1]).value * 16 + HexValue(s[2]).value, s[3..]))
    else None
  }

  /** Reads `n` consecutive `%XY` escapes from the front of `s`. */
  function ReadBytes(s: string, n: nat): (r: Option<(seq<Byte>, string)>)
    ensures r.Some? ==> |r.value.0| == n && |r.value.1| == |s| - 3 * n
  {
    if n == 0 then Some(([], s))
    else
      var first :- ReadByte(s);
      var others :- ReadBytes(first.1, n - 1);
      Some(([first.0] + others.0, others.1))
  }

  /** The length of a UTF-8 sequence announced by its lead byte; 0 for a
      byte that cannot lead one. */
  function Utf8Length(lead: Byte): nat {
    if lead < 0x80 then 1
    else if 0xC0 <= lead < 0xE0 then 2
    else if 0xE0 <= lead < 0xF0 then 3
    else if 0xF0 <= lead < 0xF8 then 4
    else 0
  }

  predicate Continuation(b: Byte) {
    0x80 <= b < 0xC0
  }

  predicate ScalarValue(n: int) {
    0 <= n < 0xD800 || 0xE000 <= n < 0x11_0000
  }

  /** A well-formed UTF-8 sequence: announced length, continuation bytes,
      and a Unicode scalar value. */
  predicate WellFormedUtf8(bs: seq<Byte>) {
    && 1 <= |bs| <= 4
    && Utf8Length(bs[0]) == |bs|
    && (forall i :: 1 <= i < |bs| ==> Continuation(bs[i]))
    && ScalarValue(CodePoint(bs))
  }

  /** The number a UTF-8 sequence of one to four bytes denotes. */
  function CodePoint(bs: seq<Byte>): int
    requires 1 <= |bs| <= 4
  {
    var b: seq<int> := bs;
    if |b| == 1 then b[0]
    else if |b| == 2 then (b[0] - 0xC0) * 64 + (b[1] - 0x80)
    else if |b| == 3 then (b[0] - 0xE0) * 4096 + (b[1] - 0x80) * 64 + (b[2] - 0x80)
    else (b[0] - 0xF0) * 262144 + (b[1] - 0x80) * 4096 + (b[2] - 0x80) * 64 + (b[3] - 0x80)
  }

  /** Decodes one character from the front of `s`, returning it with the
      unread remainder. */
  function DecodeChar(s: string): (r: Option<(char, string)>)
    ensures r.Some? ==> |r.value.1| < |s|
  {
    if s == [] then None
    else if s[0] == '+' then Some((' ', s[1..]))
    else if Unreserved(s[0]) then Some((s[0], s[1..]))
    else DecodeEscaped(s)
  }

  /** Decodes one character written as the `%XY` escapes of its UTF-8 bytes. */
  function DecodeEscaped(s: string): (r: Option<(char, string)>)
    ensures r.Some? ==> |r.value.1| < |s|
  {
    var lead :- ReadByte(s);
    var len := Utf8Length(lead.0);
    if len == 0 then None
    else
      var read :- ReadBytes(s, len);
      var bs := read.0;
      if WellFormedUtf8(bs) then Some((CodePoint(bs) as char, read.1))
      else None
  }

  /** `urldecode` restricted to well-formed input. */
  function Decode(s: string): Option<string>
    decreases |s|
  {
    if s == [] then Some([])
    else
      var first :- DecodeChar(s);
      var others :- Decode(first.1);
      Some([first.0] + others)
  }

  lemma ReadPercentByte(b: Byte, rest: string)
    ensures ReadByte(PercentByte(b) + rest) == Some((b, rest))
  {
    var s := PercentByte(b) + rest;
    assert HexValue(HexDigit(b / 16)) == Some(b / 16);
    assert HexValue(HexDigit(b % 16)) == Some(b % 16);
    assert s[3..] == rest;
  }

  lemma {:induction false} ReadPercentBytes(bs: seq<Byte>, rest: string)
    ensures ReadBytes(PercentBytes(bs) + rest, |bs|) == Some((bs, rest))
  {
    if bs != [] {
      var tail := PercentBytes(bs[1..]) + rest;
      assert PercentBytes(bs) + rest == PercentByte(bs[0]) + tail;
      ReadPercentByte(bs[0], tail);
      ReadPercentBytes(bs[1..], rest);
      assert [bs[0]] + bs[1..] == bs;
      var s := PercentByte(bs[0]) + tail;
      assert ReadByte(s) == Some((bs[0], tail));
      assert ReadBytes(tail, |bs| - 1) == Some((bs[1..], rest));
      assert ReadBytes(s, |bs|) == Some(([bs[0]] + bs[1..], rest));
    } else {
      assert PercentBytes(bs) + rest == rest;
    }
  }

  /** The UTF-8 encoder emits a well-formed sequence that denotes its input. */
  lemma Utf8WellFormed(c: char)
    ensures WellFormedUtf8(Utf8(c)) && CodePoint(Utf8(c)) == c as int
  {
    var n := c as int;
    if n < 0x80 {
    } else if n < 0x800 {
      Utf8Two(n);
    } else if n < 0x10000 {
      Utf8Three(n);
    } else {
      Utf8Four(n);
    }
  }

  lemma Utf8Two(n: int)
    requires 0x80 <= n < 0x800
    ensures var bs: seq<Byte> := [0xC0 + n / 64, 0x80 + n % 64];
      Utf8Length(bs[0]) == 2 && Continuation(bs[1]) && CodePoint(bs) == n
  {
  }

  lemma Utf8Three(n: int)
    requires 0x800 <= n < 0x10000
    ensures var bs: seq<Byte> := [0xE0 + n / 4096, 0x80 + (n / 64) % 64, 0x80 + n % 64];
      Utf8Length(bs[0]) == 3 && Continuation(bs[1]) && Continuation(bs[2]) && CodePoint(bs) == n
  {
    assert (n / 4096) * 4096 + ((n / 64) % 64) * 64 + n % 64 == n;
  }

  lemma Utf8Four(n: int)
    requires 0x10000 <= n < 0x11_0000
    ensures var bs: seq<Byte> := [0xF0 + n / 262144, 0x80 + (n / 4096) % 64, 0x80 + (n / 64) % 64, 0x80 + n % 64];
      && Utf8Length(bs[0]) == 4 && Continuation(bs[1]) && Continuation(bs[2]) && Continuation(bs[3])
      && CodePoint(bs) == n
  {
    assert (n / 262144) * 262144 + ((n / 4096) % 64) * 4096 + ((n / 64) % 64) * 64 + n % 64 == n;
  }

  /** The escapes of a well-formed UTF-8 sequence decode to the character it denotes. */
  lemma DecodeEscapedBytes(bs: seq<Byte>, rest: string)
    requires WellFormedUtf8(bs)
    ensures DecodeEscaped(PercentBytes(bs) + rest) == Some((CodePoint(bs) as char, rest))
  {
    var s := PercentBytes(bs) + rest;
    ReadPercentBytes(bs, rest);
    ReadBytesFirst(s, |bs|);
  }

  /** The first of `n` escapes read is the one `ReadByte` reads. */
  lemma ReadBytesFirst(s: string, n: nat)
    requires n > 0 && ReadBytes(s, n).Some?
    ensures ReadByte(s).Some? && ReadByte(s).value.0 == ReadBytes(s, n).value.0[0]
  {
  }

  lemma DecodeEscapedChar(c: char, rest: string)
    ensures DecodeEscaped(PercentBytes(Utf8(c)) + rest) == Some((c, rest))
  {
    Utf8WellFormed(c);
    DecodeEscapedBytes(Utf8(c), rest);
  }

  lemma DecodePercentChar(c: char, rest: string)
    requires !Unreserved(c) && c != ' '
    ensures DecodeChar(PercentBytes(Utf8(c)) + rest) == Some((c, rest))
  {
    var s := PercentBytes(Utf8(c)) + rest;
    assert s[0] == '%';
    DecodeEscapedChar(c, rest);
  }

  /** Decoding the encoding of one character gives the character back and
      leaves what follows untouched. */
  lemma DecodeEncodeChar(c: char, rest: string)
    ensures DecodeChar(EncodeChar(c) + rest) == Some((c, rest))
  {
    if !Unreserved(c) && c != ' ' {
      DecodePercentChar(c, rest);
    } else {
      assert (EncodeChar(c) + rest)[1..] == rest;
    }
  }

  /** `Decode` inverts `Encode`. */
  lemma {:induction false} DecodeEncode(s: string)
    ensures Decode(Encode(s)) == Some(s)
  {
    if s != [] {
      DecodeEncodeChar(s[0], Encode(s[1..]));
      DecodeEncode(s[1..]);
      assert [s[0]] + s[1..] == s;
    }
  }

  /** Different strings have different encodings. */
  lemma EncodeInjective(a: string, b: string)
    requires Encode(a) == Encode(b)
    ensures a == b
  {
    DecodeEncode(a);
    DecodeEncode(b);
  }

  // ------------------------------------------------------- http_build_query

  /** A parameter as PHP hands it to `http_build_query`: a null value is dropped. */
  type Field = (string, Option<string>)

  /** The pair `http_build_query` emits for one parameter: none when its value is null. */
  function Emit(f: Field): seq<(string, string)> {
    if f.1.Some? then [(f.0, f.1.value)] else []
  }

  /** The pairs `http_build_query` emits for a parameter list, in order. */
  function Present(fields: seq<Field>): (r: seq<(string, string)>)
    ensures |r| <= |fields|
  {
    if fields == [] then [] else Emit(fields[0]) + Present(fields[1..])
  }

  /** The pairs emitted for a list of five parameters. */
  lemma PresentFive(f: seq<Field>)
    requires |f| == 5
    ensures Present(f) == Emit(f[0]) + Emit(f[1]) + Emit(f[2]) + Emit(f[3]) + Emit(f[4])
  {
    var t1 := f[1..];
    var t2 := t1[1..];
    var t3 := t2[1..];
    var t4 := t3[1..];
    assert Present(t4[1..]) == [];
    assert Present(t4) == Emit(f[4]);
    assert Present(t3) == Emit(f[3]) + Emit(f[4]);
    assert Present(t2) == Emit(f[2]) + (Emit(f[3]) + Emit(f[4]));
    assert Present(t1) == Emit(f[1]) + (Emit(f[2]) + (Emit(f[3]) + Emit(f[4])));
  }

  function EncodePair(p: (string, string)): string {
    Encode(p.0) + "=" + Encode(p.1)
  }

  function JoinPairs(ps: seq<(string, string)>): (s: string)
    ensures s == [] <==> ps == []
  {
    if ps == [] then []
    else if |ps| == 1 then EncodePair(ps[0])
    else EncodePair(ps[0]) + "&" + JoinPairs(ps[1..])
  }

  /** `http_build_query($fields)` with the default `&` separator. Parsing
      the query yields exactly the non-null pairs, in order. */
  function BuildQuery(fields: seq<Field>): (q: string)
    ensures ParseQuery(q) == Some(Present(fields))
  {
    var ps := Present(fields);
    if ps == [] then []
    else
      ParseJoinPairs(ps);
      JoinPairs(ps)
  }

  predicate Separator(c: char) {
    c == '&' || c == '='
  }

  /** Decodes characters up to the next `&`, `=` or the end of `s`. */
  function DecodeWord(s: string): (r: Option<(string, string)>)
    ensures r.Some? ==> |r.value.1| <= |s|
    ensures r.Some? ==> r.value.1 == [] || Separator(r.value.1[0])
    decreases |s|
  {
    if s == [] || Separator(s[0]) then Some(([], s))
    else
      var first :- DecodeChar(s);
      var others :- DecodeWord(first.1);
      Some(([first.0] + others.0, others.1))
  }

  /** Parses one or more `key=value` pairs joined by `&`. */
  function ParsePairs(s: string): Option<seq<(string, string)>>
    decreases |s|
  {
    var key :- DecodeWord(s);
    if key.1 == [] || key.1[0] != '=' then None
    else
      var value :- DecodeWord(key.1[1..]);
      if value.1 == [] then Some([(key.0, value.0)])
      else if value.1[0] == '&' then
        var others :- ParsePairs(value.1[1..]);
        Some([(key.0, value.0)] + others)
      else None
  }

  /** Reads a query string back into its pairs. */
  function ParseQuery(s: string): Option<seq<(string, string)>> {
    if s == [] then Some([]) else ParsePairs(s)
  }

  lemma {:induction false} DecodeWordEncode(w: string, t: string)
    requires t == [] || Separator(t[0])
    ensures DecodeWord(Encode(w) + t) == Some((w, t))
  {
    if w != [] {
      var tail := Encode(w[1..]) + t;
      DecodeWordEncode(w[1..], t);
      DecodeWordStep(w[0], tail, w[1..], t);
      AppendAssociative(EncodeChar(w[0]), Encode(w[1..]), t);
      assert [w[0]] + w[1..] == w;
    } else {
      assert Encode(w) + t == t;
    }
  }

  /** One step of `DecodeWord` over an encoded character. */
  lemma DecodeWordStep(c: char, tail: string, w: string, t: string)
    requires DecodeWord(tail) == Some((w, t))
    ensures DecodeWord(EncodeChar(c) + tail) == Some(([c] + w, t))
  {
    var s := EncodeChar(c) + tail;
    assert s[0] == EncodeChar(c)[0];
    DecodeEncodeChar(c, tail);
  }

  /** The key of one encoded pair: the parser reads it and stops at `=`. */
  lemma ParseOnePair(k: string, v: string, tail: string)
    ensures DecodeWord(EncodePair((k, v)) + tail) == Some((k, "=" + (Encode(v) + tail)))
  {
    var rest := "=" + (Encode(v) + tail);
    assert EncodePair((k, v)) + tail == Encode(k) + rest;
    DecodeWordEncode(k, rest);
  }

  /** The parser reads one encoded pair and goes on after the `&`, if any. */
  lemma ParseFirstPair(k: string, v: string, tail: string)
    requires tail == [] || tail[0] == '&'
    ensures tail == [] ==> ParsePairs(EncodePair((k, v)) + tail) == Some([(k, v)])
    ensures tail != [] && ParsePairs(tail[1..]).Some? ==>
      ParsePairs(EncodePair((k, v)) + tail) == Some([(k, v)] + ParsePairs(tail[1..]).value)
  {
    ParseOnePair(k, v, tail);
    DecodeWordEncode(v, tail);
    assert ("=" + (Encode(v) + tail))[1..] == Encode(v) + tail;
  }

  lemma {:induction false} ParseJoinPairs(ps: seq<(string, string)>)
    requires ps != []
    ensures ParsePairs(JoinPairs(ps)) == Some(ps)
  {
    var k, v := ps[0].0, ps[0].1;
    var tail := if |ps| == 1 then [] else "&" + JoinPairs(ps[1..]);
    assert JoinPairs(ps) == EncodePair((k, v)) + tail;
    ParseFirstPair(k, v, tail);
    if |ps| > 1 {
      ParseJoinPairs(ps[1..]);
      assert tail[1..] == JoinPairs(ps[1..]);
      assert [(k, v)] + ps[1..] == ps;
    } else {
      assert [(k, v)] == ps;
    }
  }

  /** Two parameter lists build the same query only if they emit the same pairs. */
  lemma BuildQueryInjective(f: seq<Field>, g: seq<Field>)
    requires BuildQuery(f) == BuildQuery(g)
    ensures Present(f) == Present(g)
  {
    assert ParseQuery(BuildQuery(f)) == Some(Present(f));
  }
}
