/** Small vocabulary shared by every model in this project: optional values,
    bytes, the C library's character classes and case folding, fixed-width
    integer wrap-around and C's truncating division. */
module Common {

  /** A value that may be absent; `None` stands for a C NULL pointer or a Java null. */
  datatype Option<+T> = None | Some(value: T)

  /** An octet as the C code stores it in an `unsigned char`. */
  type byte = bv8

  /** A byte as an integer in 0..255. */
  function ByteValue(b: byte): (r: nat)
    ensures r < 256
  {
    b as nat
  }

  /** The low eight bits of an integer, as a store into an `unsigned char` keeps them. */
  function ToByte(x: int): (r: byte)
    ensures ByteValue(r) == x % 256
  {
    (x % 256) as bv8
  }

  /** A value below 256 is kept by the conversion to a byte. */
  lemma ValueOfToByte(x: int)
    requires 0 <= x < 256
    ensures ByteValue(ToByte(x)) == x
  {
  }

  /** A value is converted to the byte that has its remainder modulo 256. */
  lemma ToByteMod(x: int, b: byte)
    requires x % 256 == ByteValue(b)
    ensures ToByte(x) == b
  {
    ToByteOfValue(b);
    assert ToByte(x) == ToByte(ByteValue(b));
  }

  /** A byte read as a number and stored back is the same byte. */
  lemma ToByteOfValue(b: byte)
    ensures ToByte(ByteValue(b)) == b
  {
    assert ((b as int) % 256) as bv8 == b;
  }

  /** What a packet recogniser returns: a packet, or None when the input ran out
      first, and the bytes it did not consume. */
  datatype Read = Read(packet: Option<seq<byte>>, rest: seq<byte>)

  /** The bytes just before `rest` at the end of `input` are `p`. */
  predicate EndsWith(input: seq<byte>, p: seq<byte>, rest: seq<byte>)
  {
    |p| + |rest| <= |input| && input[|input| - |rest| - |p|..] == p + rest
  }

  /** Placement carries over from a suffix of the bytes seen. */
  lemma SuffixEndsWith(a: seq<byte>, s: seq<byte>, t: seq<byte>, p: seq<byte>, rest: seq<byte>)
    requires |s| <= |a| && a[|a| - |s|..] == s
    requires EndsWith(s + t, p, rest)
    ensures EndsWith(a + t, p, rest)
  {
    var whole := a + t;
    assert whole[|whole| - |s + t|..] == s + t;
    assert whole[|whole| - |rest| - |p|..] == (s + t)[|s + t| - |rest| - |p|..];
  }

  /** Placement survives skipping bytes at the front. */
  lemma SkipEndsWith(input: seq<byte>, k: nat, p: seq<byte>, rest: seq<byte>)
    requires k <= |input| && EndsWith(input[k..], p, rest)
    ensures EndsWith(input, p, rest)
  {
    SuffixEndsWith(input[..k], [], input[k..], p, rest);
    assert input[..k] + input[k..] == input;
  }

  /** A packet taken from the front of the input is placed before the rest. */
  lemma TakeEndsWith(input: seq<byte>, n: nat)
    requires n <= |input|
    ensures EndsWith(input, input[..n], input[n..])
  {
    assert input[..n] + input[n..] == input;
  }

  /** Dafny's `/` on `int` rounds toward minus infinity for a positive divisor;
      C's `/` truncates toward zero.  This is C's. */
  function TruncDiv(a: int, b: int): (q: int)
    requires b != 0
    ensures a >= 0 && b > 0 ==> q == a / b
  {
    if a >= 0 && b > 0 then a / b
    else if a < 0 && b < 0 then (-a) / (-b)
    else if a >= 0 then -(a / (-b))
    else -((-a) / b)
  }

  function Min(a: nat, b: nat): nat {
    if a <= b then a else b
  }

  function Max(a: nat, b: nat): nat {
    if a >= b then a else b
  }

  function Abs(x: int): (r: nat)
    ensures x >= 0 ==> r == x
    ensures x < 0 ==> r == -x
  {
    if x < 0 then -x else x
  }

  /** A value a 32-bit C `int` can hold. */
  predicate IsInt32(x: int) {
    -0x8000_0000 <= x < 0x8000_0000
  }

  /** Reinterprets an integer modulo 2^32 as a signed 32-bit C `int`. */
  function WrapInt32(x: int): (r: int)
    ensures -0x8000_0000 <= r < 0x8000_0000
    ensures (r - x) % 0x1_0000_0000 == 0
    ensures -0x8000_0000 <= x < 0x8000_0000 ==> r == x
  {
    var m := x % 0x1_0000_0000;
    if m < 0x8000_0000 then m else m - 0x1_0000_0000
  }

  /** The characters the C library's `isspace`/`iswspace` accept in the "C" locale. */
  predicate IsSpace(c: char) {
    c == ' ' || c == '\t' || c == '\n' || c == '\r' || c == '\U{B}' || c == '\U{C}'
  }

  /** `tolower`/`towlower` in the "C" locale: only ASCII letters fold. */
  function ToLower(c: char): (r: char)
    ensures 'A' <= c <= 'Z' ==> r as int == c as int + 32
    ensures !('A' <= c <= 'Z') ==> r == c
  {
    if 'A' <= c <= 'Z' then (c as int + 32) as char else c
  }

  /** Two characters are equal ignoring ASCII case. */
  predicate SameLetter(a: char, b: char) {
    ToLower(a) == ToLower(b)
  }

  /** `a` and `b` have equal length and are equal ignoring ASCII case. */
  predicate EqualIgnoringCase(a: string, b: string) {
    |a| == |b| && forall i :: 0 <= i < |a| ==> SameLetter(a[i], b[i])
  }

  /** `a` is a prefix of `b` ignoring ASCII case.  This is what
      `strncasecmp(a, b, strlen(a)) == 0` decides for NUL-free strings: when
      `b` is shorter, its terminating NUL differs from `a`'s next character. */
  predicate IsPrefixIgnoringCase(a: string, b: string) {
    |a| <= |b| && EqualIgnoringCase(a, b[..|a|])
  }

  /** Index of the first occurrence of `c` in `s`, if any. */
  function IndexOf(s: string, c: char): (r: Option<nat>)
    ensures r.None? <==> c !in s
    ensures r.Some? ==> r.value < |s| && s[r.value] == c && c !in s[..r.value]
  {
    if |s| == 0 then None
    else if s[0] == c then Some(0)
    else
      var r := IndexOf(s[1..], c);
      if r.None? then None
      else assert s[..r.value + 1] == [s[0]] + s[1..][..r.value]; Some(r.value + 1)
  }

  /** The first occurrence is the one with none before it. */
  lemma IndexOfAt(s: string, c: char, i: nat)
    requires i < |s| && s[i] == c && c !in s[..i]
    ensures IndexOf(s, c) == Some(i)
  {
    var r := IndexOf(s, c);
    assert forall k :: 0 <= k < i ==> s[k] != c by {
      forall k | 0 <= k < i ensures s[k] != c {
        assert s[k] == s[..i][k];
      }
    }
    assert forall k :: 0 <= k < r.value ==> s[k] != c by {
      forall k | 0 <= k < r.value ensures s[k] != c {
        assert s[k] == s[..r.value][k];
      }
    }
  }

  /** The first `c` of `a + [c] + b`, when `a` has none, is the one between. */
  lemma IndexOfJoint(a: string, c: char, b: string)
    requires c !in a
    ensures IndexOf(a + [c] + b, c) == Some(|a|)
    ensures (a + [c] + b)[..|a|] == a && (a + [c] + b)[|a| + 1..] == b
  {
    var s := a + [c] + b;
    assert s[..|a|] == a;
    IndexOfAt(s, c, |a|);
    assert s[|a| + 1..] == b;
  }

  /** Decodes a big-endian unsigned integer from a byte sequence, as
      `ntohl` applied to consecutive network-order bytes does. */
  function BigEndian(bs: seq<byte>): nat
  {
    if |bs| == 0 then 0 else BigEndian(bs[..|bs| - 1]) * 256 + ByteValue(bs[|bs| - 1])
  }

  lemma {:induction false} BigEndianBound(bs: seq<byte>)
    ensures BigEndian(bs) < Pow256(|bs|)
  {
    if |bs| > 0 {
      BigEndianBound(bs[..|bs| - 1]);
    }
  }

  function Pow256(n: nat): (r: nat)
    ensures r >= 1
  {
    if n == 0 then 1 else 256 * Pow256(n - 1)
  }

  /** The `n`-byte big-endian encoding of `x` (taken modulo 256^n). */
  function ToBigEndian(x: nat, n: nat): (r: seq<byte>)
    ensures |r| == n
  {
    if n == 0 then [] else ToBigEndian(x / 256, n - 1) + [ToByte(x)]
  }

  lemma {:induction false} BigEndianRoundTrip(x: nat, n: nat)
    requires x < Pow256(n)
    ensures BigEndian(ToBigEndian(x, n)) == x
  {
    if n > 0 {
      var r := ToBigEndian(x, n);
      assert r[..n - 1] == ToBigEndian(x / 256, n - 1);
      BigEndianRoundTrip(x / 256, n - 1);
    }
  }

  /** Writing back the value of a byte string gives the same bytes. */
  lemma {:induction false} BigEndianInverse(bs: seq<byte>)
    ensures ToBigEndian(BigEndian(bs), |bs|) == bs
  {
    var n := |bs|;
    if n > 0 {
      var p := BigEndian(bs[..n - 1]);
      var b := ByteValue(bs[n - 1]);
      var x := BigEndian(bs);
      assert x == p * 256 + b;
      assert x / 256 == p && x % 256 == b;
      ToByteMod(x, bs[n - 1]);
      BigEndianInverse(bs[..n - 1]);
      assert bs == bs[..n - 1] + [bs[n - 1]];
    }
  }

  /** The parts joined with one `d` between neighbours: the string a
      delimiter-separated list is written as. */
  function JoinWith<T>(parts: seq<seq<T>>, d: T): seq<T>
  {
    if |parts| == 0 then []
    else if |parts| == 1 then parts[0]
    else parts[0] + [d] + JoinWith(parts[1..], d)
  }

  /** The parts one after the other. */
  function Concat<T>(parts: seq<seq<T>>): seq<T>
  {
    if |parts| == 0 then [] else Concat(parts[..|parts| - 1]) + parts[|parts| - 1]
  }

  /** The sum of the parts' lengths. */
  function TotalLength<T>(parts: seq<seq<T>>): nat
  {
    if |parts| == 0 then 0 else TotalLength(parts[..|parts| - 1]) + |parts[|parts| - 1]|
  }

  /** The outcome of writing a run of packets one after the other until the
      device refuses one: `written` is what was sent, in order, the last of
      it refused when the write failed. `accepted(i, p)` is the device's
      answer to the i-th packet `p`. */
  predicate WriteOutcome<P(==)>(packets: seq<P>, written: seq<P>, ok: bool, accepted: (nat, P) -> bool)
  {
    && written <= packets
    && (ok <==> written == packets && forall i :: 0 <= i < |packets| ==> accepted(i, packets[i]))
    && (!ok ==> |written| > 0 && !accepted(|written| - 1, written[|written| - 1]))
    && (forall i :: 0 <= i < |written| - 1 ==> accepted(i, written[i]))
  }

  /** Every packet accepted: the write succeeds. */
  lemma AllAccepted<P>(packets: seq<P>, accepted: (nat, P) -> bool)
    requires forall i :: 0 <= i < |packets| ==> accepted(i, packets[i])
    ensures WriteOutcome(packets, packets, true, accepted)
  {
  }

  /** The last packet sent refused: the write fails. */
  lemma LastRefused<P>(packets: seq<P>, written: seq<P>, accepted: (nat, P) -> bool)
    requires written <= packets && |written| > 0
    requires forall i :: 0 <= i < |written| - 1 ==> accepted(i, written[i])
    requires !accepted(|written| - 1, written[|written| - 1])
    ensures WriteOutcome(packets, written, false, accepted)
  {
    assert packets[|written| - 1] == written[|written| - 1];
  }

  /** A second update of the same key replaces the first. */
  lemma UpdateTwice<K, V>(m: map<K, V>, k: K, a: V, b: V)
    ensures m[k := a][k := b] == m[k := b]
  {
  }
}
