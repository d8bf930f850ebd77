// base64_encode in base64.cpp, against the decoding of section 4 of RFC 4648. Masks
// and shifts of unsigned bytes are written as remainders, products and quotients.

module Base64 {

  import opened Wrappers

  newtype byte = x: int | 0 <= x < 256

  /** Table 1 of RFC 4648, base64_chars. */
  function Char(v: int): char
    requires 0 <= v < 64
  {
    if v < 26 then 'A' + v as char
    else if v < 52 then 'a' + (v - 26) as char
    else if v < 62 then '0' + (v - 52) as char
    else if v == 62 then '+' else '/'
  }

  const BASE64_CHARS := "ABCDEFGHIJKLMNOPQRSTUVWXYZ" + "abcdefghijklmnopqrstuvwxyz" + "0123456789+/"

  /** The table, written out. */
  lemma Alphabet(v: int)
    requires 0 <= v < 64
    ensures Char(v) == ("ABCDEFGHIJKLMNOPQRSTUVWXYZ" + "abcdefghijklmnopqrstuvwxyz" + "0123456789+/")[v]
  {
    if v < 26 {
      Capitals(v);
    } else if v < 52 {
      Smalls(v);
    } else {
      Others(v);
    }
  }

  lemma Capitals(v: int)
    requires 0 <= v < 26
    ensures Char(v) == "ABCDEFGHIJKLMNOPQRSTUVWXYZ"[v]
  {
    assert "ABCDEFGHIJKLMNOPQRSTUVWXYZ"[v] as int == Char(v) as int;
  }

  lemma Smalls(v: int)
    requires 26 <= v < 52
    ensures Char(v) == "abcdefghijklmnopqrstuvwxyz"[v - 26]
  {
    assert "abcdefghijklmnopqrstuvwxyz"[v - 26] as int == Char(v) as int;
  }

  lemma Others(v: int)
    requires 52 <= v < 64
    ensures Char(v) == "0123456789+/"[v - 52]
  {
    assert "0123456789+/"[v - 52] as int == Char(v) as int;
  }

  /** The value of a character of the table, and -1 for any other. */
  function Value(c: char): (v: int)
    ensures -1 <= v < 64
  {
    if 'A' <= c <= 'Z' then c as int - 'A' as int
    else if 'a' <= c <= 'z' then c as int - 'a' as int + 26
    else if '0' <= c <= '9' then c as int - '0' as int + 52
    else if c == '+' then 62
    else if c == '/' then 63
    else -1
  }

  lemma TableInverse(c: char, v: int)
    ensures 0 <= v < 64 ==> Value(Char(v)) == v && Char(v) != '='
    ensures 0 <= Value(c) ==> Value(c) < 64 && Char(Value(c)) == c
    ensures Value('=') == -1
  {
  }

  // The four values that three bytes make.
  function First(a: byte): int {
    a as int / 4
  }

  function Second(a: byte, b: byte): int {
    a as int % 4 * 16 + b as int / 16
  }

  function Third(b: byte, c: byte): int {
    b as int % 16 * 4 + c as int / 64
  }

  function Fourth(c: byte): int {
    c as int % 64
  }

  /** One to three bytes make four characters. */
  function Group(data: seq<byte>): string
    requires 1 <= |data| <= 3
  {
    var a, b := data[0], if |data| > 1 then data[1] else 0;
    var c := if |data| > 2 then data[2] else 0;
    [Char(First(a)), Char(Second(a, b)), if |data| > 1 then Char(Third(b, c)) else '=',
     if |data| > 2 then Char(Fourth(c)) else '=']
  }

  /** The encoding, group by group. */
  function Encoded(data: seq<byte>): string {
    if data == [] then ""
    else if |data| <= 3 then Group(data)
    else Group(data[..3]) + Encoded(data[3..])
  }

  // The three bytes that four values make.
  function ByteOne(v: int, w: int): byte
    requires 0 <= v < 64 && 0 <= w < 64
  {
    (v * 4 + w / 16) as byte
  }

  function ByteTwo(w: int, x: int): byte
    requires 0 <= w < 64 && 0 <= x < 64
  {
    (w % 16 * 16 + x / 4) as byte
  }

  function ByteThree(x: int, y: int): byte
    requires 0 <= x < 64 && 0 <= y < 64
  {
    (x % 4 * 64 + y) as byte
  }

  /** The bytes of the last four characters; with padding, the bits left over must be zero. */
  function DecodedGroup(t: string): Option<seq<byte>>
    requires |t| == 4
  {
    var v, w, x, y := Value(t[0]), Value(t[1]), Value(t[2]), Value(t[3]);
    if v < 0 || w < 0 then None
    else if t[2] == '=' && t[3] == '=' then
      if w % 16 == 0 then Some([ByteOne(v, w)]) else None
    else if x < 0 then None
    else if t[3] == '=' then
      if x % 4 == 0 then Some([ByteOne(v, w), ByteTwo(w, x)]) else None
    else if y < 0 then None
    else Some([ByteOne(v, w), ByteTwo(w, x), ByteThree(x, y)])
  }

  /** Only the last group may be padded. */
  function Decoded(t: string): Option<seq<byte>> {
    if t == "" then Some([])
    else if |t| < 4 then None
    else
      var head := DecodedGroup(t[..4]);
      var tail := Decoded(t[4..]);
      if head.None? || tail.None? || (|head.value| < 3 && |t| > 4) then None
      else Some(head.value + tail.value)
  }

  lemma Bounds(a: byte, b: byte, c: byte)
    ensures 0 <= First(a) < 64 && 0 <= Second(a, b) < 64 && 0 <= Third(b, c) < 64 && 0 <= Fourth(c) < 64
  {
  }

  lemma Bits(a: byte, b: byte, c: byte)
    ensures 0 <= First(a) < 64 && 0 <= Second(a, b) < 64 && 0 <= Third(b, c) < 64 && 0 <= Fourth(c) < 64
    ensures ByteOne(First(a), Second(a, b)) == a && ByteTwo(Second(a, b), Third(b, c)) == b
    ensures ByteThree(Third(b, c), Fourth(c)) == c
    ensures (b == 0 ==> Second(a, b) % 16 == 0) && (c == 0 ==> Third(b, c) % 4 == 0)
  {
  }

  /** The values of the characters of a group, and the padding. */
  lemma GroupShape(data: seq<byte>)
    requires 1 <= |data| <= 3
    ensures |Group(data)| == 4
    ensures Value(Group(data)[0]) == First(data[0])
    ensures Value(Group(data)[1]) == Second(data[0], if |data| > 1 then data[1] else 0)
    ensures if |data| > 1 then Value(Group(data)[2]) == Third(data[1], if |data| > 2 then data[2] else 0)
            else Group(data)[2] == '='
    ensures if |data| > 2 then Value(Group(data)[3]) == Fourth(data[2]) else Group(data)[3] == '='
  {
    var a, b := data[0], if |data| > 1 then data[1] else 0;
    var c := if |data| > 2 then data[2] else 0;
    Bounds(a, b, c);
    TableInverse('=', First(a));
    TableInverse('=', Second(a, b));
    TableInverse('=', Third(b, c));
    TableInverse('=', Fourth(c));
    hide Char, Value, First, Second, Third, Fourth, ByteOne, ByteTwo, ByteThree;
  }

  lemma DecodesOne(t: string, a: byte, zero: byte)
    requires |t| == 4 && zero == 0
    requires Value(t[0]) == First(a) && Value(t[1]) == Second(a, zero) && t[2] == t[3] == '='
    ensures DecodedGroup(t) == Some([a])
  {
    Bits(a, zero, zero);
    hide Value, First, Second, Third, Fourth, ByteOne, ByteTwo, ByteThree;
  }

  lemma DecodesTwo(t: string, a: byte, b: byte, zero: byte)
    requires |t| == 4 && zero == 0 && Value(t[0]) == First(a) && Value(t[1]) == Second(a, b)
    requires Value(t[2]) == Third(b, zero) && t[3] == '='
    ensures DecodedGroup(t) == Some([a, b])
  {
    Bits(a, b, zero);
    TableInverse('=', 0);
    hide Value, First, Second, Third, Fourth, ByteOne, ByteTwo, ByteThree;
  }

  lemma DecodesThree(t: string, a: byte, b: byte, c: byte)
    requires |t| == 4 && Value(t[0]) == First(a) && Value(t[1]) == Second(a, b)
    requires Value(t[2]) == Third(b, c) && Value(t[3]) == Fourth(c)
    ensures DecodedGroup(t) == Some([a, b, c])
  {
    Bits(a, b, c);
    TableInverse('=', 0);
    hide Value, First, Second, Third, Fourth, ByteOne, ByteTwo, ByteThree;
  }

  lemma GroupDecodesBack(data: seq<byte>)
    requires 1 <= |data| <= 3
    ensures |Group(data)| == 4 && DecodedGroup(Group(data)) == Some(data)
  {
    GroupShape(data);
    hide Group, DecodedGroup, Value, First, Second, Third, Fourth;
    if |data| == 1 {
      DecodesOne(Group(data), data[0], 0);
      assert data == [data[0]];
    } else if |data| == 2 {
      DecodesTwo(Group(data), data[0], data[1], 0);
      assert data == [data[0], data[1]];
    } else {
      DecodesThree(Group(data), data[0], data[1], data[2]);
      assert data == [data[0], data[1], data[2]];
    }
  }

  lemma DecodedStep(head: string, tail: string, front: seq<byte>, back: seq<byte>)
    requires |head| == 4 && DecodedGroup(head) == Some(front) && Decoded(tail) == Some(back)
    requires |front| == 3 || tail == ""
    ensures Decoded(head + tail) == Some(front + back)
  {
    hide DecodedGroup;
    assert (head + tail)[..4] == head && (head + tail)[4..] == tail;
  }

  /** The decoder gives the bytes back. */
  lemma {:induction false} DecodesBack(data: seq<byte>)
    ensures Decoded(Encoded(data)) == Some(data)
  {
    hide DecodedGroup, Group;
    if 0 < |data| <= 3 {
      GroupDecodesBack(data);
      DecodedStep(Group(data), "", data, []);
      assert Group(data) + "" == Group(data) && data + [] == data;
    } else if |data| > 3 {
      GroupDecodesBack(data[..3]);
      DecodesBack(data[3..]);
      DecodedStep(Group(data[..3]), Encoded(data[3..]), data[..3], data[3..]);
      assert data == data[..3] + data[3..];
    }
  }

  /** No two inputs have the same encoding. */
  lemma Injective(a: seq<byte>, b: seq<byte>)
    requires Encoded(a) == Encoded(b)
    ensures a == b
  {
    DecodesBack(a);
    DecodesBack(b);
  }

  lemma BitsBack(v: int, w: int, x: int, y: int, a: byte, b: byte, c: byte)
    requires 0 <= v < 64 && 0 <= w < 64 && 0 <= x < 64 && 0 <= y < 64
    requires ByteOne(v, w) == a && ByteTwo(w, x) == b && ByteThree(x, y) == c
    ensures First(a) == v && Second(a, b) == w && Third(b, c) == x && Fourth(c) == y
  {
  }

  /** The values of an accepted group of characters are those its bytes make. */
  lemma DecodedParts(t: string)
    requires |t| == 4 && DecodedGroup(t).Some?
    ensures var d := DecodedGroup(t).value;
      && 1 <= |d| <= 3 && 0 <= Value(t[0]) == First(d[0])
      && 0 <= Value(t[1]) == Second(d[0], if |d| > 1 then d[1] else 0)
      && (if |d| > 1 then 0 <= Value(t[2]) == Third(d[1], if |d| > 2 then d[2] else 0) else t[2] == '=')
      && (if |d| > 2 then 0 <= Value(t[3]) == Fourth(d[2]) else t[3] == '=')
  {
    var d := DecodedGroup(t).value;
    var v, w, x, y := Value(t[0]), Value(t[1]), Value(t[2]), Value(t[3]);
    TableInverse(t[0], v);
    TableInverse(t[1], w);
    TableInverse(t[2], x);
    TableInverse(t[3], y);
    hide First, Second, Third, Fourth, Value;
    if t[2] == '=' && t[3] == '=' {
      BitsBack(v, w, 0, 0, d[0], 0, 0);
    } else if t[3] == '=' {
      BitsBack(v, w, x, 0, d[0], d[1], 0);
    } else {
      BitsBack(v, w, x, y, d[0], d[1], d[2]);
    }
  }

  lemma GroupEncodesBack(t: string)
    requires |t| == 4 && DecodedGroup(t).Some?
    ensures 1 <= |DecodedGroup(t).value| <= 3 && Group(DecodedGroup(t).value) == t
  {
    hide Char, Value, First, Second, Third, Fourth, DecodedGroup;
    DecodedParts(t);
    TableInverse(t[0], 0);
    TableInverse(t[1], 0);
    TableInverse(t[2], 0);
    TableInverse(t[3], 0);
    assert t == [t[0], t[1], t[2], t[3]];
  }

  /** Nothing else decodes: the texts accepted are the encodings. */
  lemma {:induction false} EncodesBack(t: string)
    requires Decoded(t).Some?
    ensures Encoded(Decoded(t).value) == t
  {
    if t != "" {
      GroupEncodesBack(t[..4]);
      EncodesBack(t[4..]);
      hide DecodedGroup, Group;
      var front, back := DecodedGroup(t[..4]).value, Decoded(t[4..]).value;
      assert t == t[..4] + t[4..];
      if |t| == 4 {
        assert front + back == front;
      } else {
        assert back != [] && (front + back)[..3] == front && (front + back)[3..] == back;
      }
    }
  }

  /** Characters of the table, and then so much padding. */
  ghost predicate Padded(t: string, padding: nat) {
    && padding <= |t|
    && (forall i :: 0 <= i < |t| - padding ==> Value(t[i]) >= 0)
    && (forall i :: |t| - padding <= i < |t| ==> t[i] == '=')
  }

  lemma PaddedAppend(head: string, tail: string, padding: nat)
    requires Padded(head, 0) && Padded(tail, padding)
    ensures Padded(head + tail, padding)
  {
  }

  /** How many bytes are missing in the last group. */
  function Missing(n: nat): nat {
    (3 - n % 3) % 3
  }

  function Groups(n: nat): nat {
    (n + 2) / 3
  }

  lemma OneGroupMore(n: nat)
    ensures Groups(n + 3) == Groups(n) + 1 && Missing(n + 3) == Missing(n)
  {
    var m := n / 3;
    var r := n - 3 * m;
    assert (n + 3) % 3 == r && n % 3 == r;
  }

  /** One group has four characters, and padding for the bytes it lacks. */
  lemma GroupPadded(data: seq<byte>)
    requires 1 <= |data| <= 3
    ensures |Group(data)| == 4 && Padded(Group(data), 3 - |data|)
  {
    GroupShape(data);
    hide Group, Value;
  }

  lemma ShortShape(data: seq<byte>)
    requires |data| <= 3
    ensures |Encoded(data)| == 4 * Groups(|data|) && Padded(Encoded(data), Missing(|data|))
  {
    hide Missing, Groups, Encoded, Group, Padded;
    ShortLengths(|data|);
    ShortEncoded(data);
    if data == [] {
      NoneMissing();
    } else {
      GroupPadded(data);
    }
  }

  lemma ShortEncoded(data: seq<byte>)
    requires |data| <= 3
    ensures Encoded(data) == if data == [] then "" else Group(data)
  {
    hide Group;
  }

  lemma NoneMissing()
    ensures Padded("", 0)
  {
  }

  lemma ShortLengths(n: nat)
    requires n <= 3
    ensures Groups(n) == (if n == 0 then 0 else 1) && Missing(n) == if n == 0 then 0 else 3 - n
  {
  }

  /** Four characters a group, padded as far as bytes are missing in the last. */
  lemma {:induction false} Shape(data: seq<byte>)
    ensures |Encoded(data)| == 4 * Groups(|data|)
    ensures Padded(Encoded(data), Missing(|data|))
  {
    hide Group, Missing, Groups, Padded;
    if |data| <= 3 {
      ShortShape(data);
    } else {
      GroupPadded(data[..3]);
      Shape(data[3..]);
      OneGroupMore(|data[3..]|);
      PaddedAppend(Group(data[..3]), Encoded(data[3..]), Missing(|data[3..]|));
    }
  }

  /** Three whole bytes at a time, their 24 bits in four characters. */
  lemma {:induction false} EncodedAt(data: seq<byte>, k: nat)
    requires 3 * k + 2 < |data|
    ensures |Encoded(data)| >= 4 * k + 4
    ensures var a, b, c := data[3 * k] as int, data[3 * k + 1] as int, data[3 * k + 2] as int;
      Encoded(data)[4 * k..4 * k + 4] ==
        [Char(a / 4), Char(a % 4 * 16 + b / 16), Char(b % 16 * 4 + c / 64), Char(c % 64)]
  {
    hide Char;
    if k > 0 {
      EncodedAt(data[3..], k - 1);
      assert |Group(data[..3])| == 4;
      hide Encoded, Group;
      BehindGroup(Group(data[..3]), Encoded(data[3..]), 4 * (k - 1));
    } else {
      assert Encoded(data)[..4] == Group(data[..3]);
    }
  }

  lemma BehindGroup(group: string, rest: string, n: nat)
    requires |group| == 4 && n + 4 <= |rest|
    ensures (group + rest)[n + 4..n + 8] == rest[n..n + 4]
  {
  }

  /** One or two bytes at the end: the bits left are zero, and padding fills up. */
  predicate EndsAs(data: seq<byte>, e: string)
    requires |data| % 3 != 0 && |e| >= 4
  {
    var n, k := |data|, |e|;
    var a := data[n - n % 3] as int;
    var b := if n % 3 == 2 then data[n - 1] as int else 0;
    && e[k - 4] == Char(a / 4) && e[k - 3] == Char(a % 4 * 16 + b / 16)
    && e[k - 2] == (if n % 3 == 2 then Char(b % 16 * 4) else '=') && e[k - 1] == '='
  }

  lemma {:induction false} EncodedEnd(data: seq<byte>)
    requires |data| % 3 != 0
    ensures |Encoded(data)| >= 4 && EndsAs(data, Encoded(data))
  {
    hide EndsAs;
    if |data| > 3 {
      EncodedEnd(data[3..]);
      hide Group;
      EndsLater(data, Group(data[..3]), Encoded(data[3..]));
    } else {
      ShortEnd(data);
    }
  }

  lemma ShortEnd(data: seq<byte>)
    requires 1 <= |data| <= 2
    ensures |Encoded(data)| == 4 && EndsAs(data, Encoded(data))
  {
    hide Char;
    assert Encoded(data) == Group(data);
  }

  lemma EndsLater(data: seq<byte>, group: string, e: string)
    requires |data| > 3 && |data| % 3 != 0 && |e| >= 4 && EndsAs(data[3..], e)
    ensures EndsAs(data, group + e)
  {
    hide Char;
    var rest, m := data[3..], |data| - 3;
    assert |data| % 3 == m % 3;
    assert rest[m - m % 3] == data[|data| - |data| % 3] && rest[m - 1] == data[|data| - 1];
  }

  lemma {:induction false} EncodedAppend(data: seq<byte>, group: seq<byte>, g: nat)
    requires |data| == 3 * g && 1 <= |group| <= 3
    ensures Encoded(data + group) == Encoded(data) + Group(group)
  {
    hide Group;
    if data == [] {
      assert data + group == group;
    } else {
      assert (data + group)[..3] == data[..3] && (data + group)[3..] == data[3..] + group;
      if |data| == 3 {
        assert data[3..] == [];
      }
      EncodedAppend(data[3..], group, g - 1);
    }
  }

  /** The characters for the first of four values. */
  method Characters(four: array<int>, count: nat) returns (s: string)
    requires count <= four.Length && forall k :: 0 <= k < count ==> 0 <= four[k] < 64
    ensures |s| == count && forall k :: 0 <= k < count ==> s[k] == Char(four[k])
  {
    s := "";
    for j := 0 to count
      invariant |s| == j && forall k :: 0 <= k < j ==> s[k] == Char(four[k])
    {
      Alphabet(four[j]);
      s := s + [BASE64_CHARS[four[j]]];
    }
  }

  /** Four values from three bytes, and the characters of the first of them. */
  method EncodeThree(three: array<byte>, four: array<int>, count: nat) returns (s: string)
    requires three.Length == 3 && four.Length == 4 && count <= 4
    modifies four
    ensures |s| == count && |Group(three[..])| == 4 && (count == 4 ==> s == Group(three[..]))
    ensures forall k :: 0 <= k < count ==> s[k] == Group(three[..])[k]
  {
    GroupShape(three[..]);
    Bounds(three[0], three[1], three[2]);
    hide Char;
    four[0] := three[0] as int / 4;
    four[1] := three[0] as int % 4 * 16 + three[1] as int / 16;
    four[2] := three[1] as int % 16 * 4 + three[2] as int / 64;
    four[3] := three[2] as int % 64;
    s := Characters(four, count);
  }

  /** The last group: the missing bytes are zero, their characters padding. */
  method EncodeRest(three: array<byte>, four: array<int>, count: nat) returns (s: string)
    requires three.Length == 3 && four.Length == 4 && 1 <= count < 3
    modifies three, four
    ensures s == Group(old(three[..count]))
  {
    ghost var rest := three[..count];
    for j := count to 3
      invariant three[..count] == rest && forall k :: count <= k < j ==> three[k] == 0
    {
      three[j] := 0;
    }
    GroupOfRest(three[..], count);
    hide Group;
    s := EncodeThree(three, four, count + 1);
    var i := count;
    while i < 3
      invariant count <= i <= 3 && |s| == i + 1
      invariant forall k :: 0 <= k < |s| ==> s[k] == Group(rest)[k]
    {
      i := i + 1;
      s := s + ['='];
    }
  }

  lemma GroupOfRest(three: seq<byte>, count: nat)
    requires |three| == 3 && 1 <= count <= 3 && forall k :: count <= k < 3 ==> three[k] == 0
    ensures |Group(three[..count])| == 4 && |Group(three)| == 4
    ensures forall k :: 0 <= k <= count ==> Group(three[..count])[k] == Group(three)[k]
    ensures forall k :: count < k < 4 ==> Group(three[..count])[k] == '='
  {
    hide Char;
  }

  lemma EncodedUpTo(data: seq<byte>, n: nat, i: nat, g: nat)
    requires n <= |data| && 1 <= i <= 3 && n == i + 3 * g
    ensures Encoded(data[..n]) == Encoded(data[..n - i]) + Group(data[n - i..n])
  {
    hide Encoded, Group;
    EncodedAppend(data[..n - i], data[n - i..n], g);
    assert data[..n] == data[..n - i] + data[n - i..n];
  }

  /** After so many bytes the full groups are encoded, the rest is in the buffer. */
  ghost predicate Underway(data: seq<byte>, n: nat, three: seq<byte>, i: nat, result: string) {
    && i < 3 == |three| && i <= n <= |data|
    && (exists g: nat :: n == i + 3 * g)
    && three[..i] == data[n - i..n]
    && result == Encoded(data[..n - i])
  }

  lemma OneByteMore(data: seq<byte>, n: nat, was: seq<byte>, three: seq<byte>, i: nat, result: string)
    requires Underway(data, n, was, i, result) && n < |data| && three == was[i := data[n]]
    ensures i < 2 ==> Underway(data, n + 1, three, i + 1, result)
    ensures i == 2 ==> Underway(data, n + 1, three, 0, result + Group(three))
  {
    hide Encoded, Group;
    assert three[..i + 1] == was[..i] + [data[n]];
    assert three[..i + 1] == data[n - i..n + 1];
    var g: nat :| n == i + 3 * g;
    if i < 2 {
      assert n + 1 == i + 1 + 3 * g;
    } else {
      assert three[..3] == three && n + 1 == 0 + 3 * (g + 1);
      EncodedUpTo(data, n + 1, 3, g);
    }
  }

  lemma AllBytes(data: seq<byte>, three: seq<byte>, i: nat, result: string)
    requires Underway(data, |data|, three, i, result)
    ensures (if i == 0 then result else result + Group(three[..i])) == Encoded(data)
  {
    hide Encoded, Group, Underway;
    var g, front, last := AtTheEnd(data, three, i, result);
    RestEncoded(front, last, g, result);
  }

  lemma AtTheEnd(data: seq<byte>, three: seq<byte>, i: nat, result: string)
    returns (g: nat, front: seq<byte>, last: seq<byte>)
    requires Underway(data, |data|, three, i, result)
    ensures i < 3 == |three| && last == three[..i] && front + last == data && |front| == 3 * g && result == Encoded(front)
  {
    hide Encoded;
    g :| |data| == i + 3 * g;
    front, last := data[..|data| - i], three[..i];
    WholeAndRest(data, |data| - i);
  }

  lemma WholeAndRest(data: seq<byte>, n: nat)
    requires n <= |data|
    ensures data[..n] + data[n..|data|] == data
  {
  }

  lemma RestEncoded(front: seq<byte>, last: seq<byte>, g: nat, result: string)
    requires |front| == 3 * g && |last| < 3 && result == Encoded(front)
    ensures (if last == [] then result else result + Group(last)) == Encoded(front + last)
  {
    hide Encoded, Group;
    if last == [] {
      assert front + last == front;
    } else {
      EncodedAppend(front, last, g);
    }
  }

  method Base64Encode(data: seq<byte>) returns (result: string)
    ensures result == Encoded(data)
  {
    result := "";
    var i, n: nat := 0, 0;
    var three, four := new byte[3], new int[4];
    assert Underway(data, 0, three[..], 0, "") by { assert 0 == 0 + 3 * 0; }
    hide Encoded, Group;
    while n < |data|
      invariant n <= |data| && i < 3 && Underway(data, n, three[..], i, result)
    {
      ghost var was := three[..];
      three[i] := data[n];
      OneByteMore(data, n, was, three[..], i, result);
      hide Underway;
      i, n := i + 1, n + 1;
      if i == 3 {
        var s := EncodeThree(three, four, 4);
        result := result + s;
        i := 0;
      }
    }
    AllBytes(data, three[..], i, result);
    if i != 0 {
      assert three[..i] == three[..][..i];
      var s := EncodeRest(three, four, i);
      result := result + s;
    }
  }
}
