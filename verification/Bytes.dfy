/** Bytes, little-endian integers and NUL-terminated strings, as the payload's C code sees them. */
module Bytes {

  datatype Option<+T> = None | Some(value: T)

  type byte = b: int | 0 <= b < 256

  /** The bytes of an ASCII literal without its terminator. */
  function Ascii(s: string): (b: seq<byte>)
    requires forall i :: 0 <= i < |s| ==> 0 < s[i] as int < 128
    ensures |b| == |s| && 0 !in b && forall i :: 0 <= i < |s| ==> b[i] == s[i] as int
  {
    seq(|s|, i requires 0 <= i < |s| => s[i] as int)
  }

  function Zeros(n: nat): (z: seq<byte>)
    ensures |z| == n && forall i :: 0 <= i < n ==> z[i] == 0
  {
    seq(n, _ => 0)
  }

  /** `s` with `t` written over it from index `at` on. */
  function Overwrite(s: seq<byte>, at: nat, t: seq<byte>): (r: seq<byte>)
    requires at + |t| <= |s|
    ensures |r| == |s|
  {
    s[..at] + t + s[at + |t|..]
  }

  /** Two adjacent writes are one. */
  lemma OverwriteTwice(s: seq<byte>, at: nat, t: seq<byte>, u: seq<byte>)
    requires at + |t| + |u| <= |s|
    ensures Overwrite(Overwrite(s, at, t), at + |t|, u) == Overwrite(s, at, t + u)
  {
  }

  lemma OneWrite(before: seq<byte>, after: seq<byte>, at: nat)
    requires at < |before| && after == before[at := 0]
    ensures after == Overwrite(before, at, [0])
  {
  }

  /** One byte more of a text that is being written. */
  lemma OverwriteMore(before: seq<byte>, at: nat, text: seq<byte>, i: nat, current: seq<byte>)
    requires at + |text| <= |before| && i < |text| && current == Overwrite(before, at, text[..i])
    ensures current[at + i := text[i]] == Overwrite(before, at, text[..i + 1])
  {
  }

  lemma OverwriteNothing(s: seq<byte>, at: nat)
    requires at <= |s|
    ensures Overwrite(s, at, []) == s
  {
  }

  /** An overwritten string, index by index. */
  lemma OverwriteAt(s: seq<byte>, at: nat, t: seq<byte>, k: nat)
    requires at + |t| <= |s| && k < |s|
    ensures Overwrite(s, at, t)[k] == if at <= k < at + |t| then t[k - at] else s[k]
  {
  }

  // ---------- little-endian integers ----------

  function Pow256(n: nat): (p: nat)
    ensures p > 0
  {
    if n == 0 then 1 else 256 * Pow256(n - 1)
  }

  /** The `n` low bytes of `v`, least significant first. */
  function Le(v: nat, n: nat): (s: seq<byte>)
    ensures |s| == n
  {
    if n == 0 then [] else [v % 256] + Le(v / 256, n - 1)
  }

  /** The value of a little-endian byte string. */
  function FromLe(s: seq<byte>): nat
  {
    if s == [] then 0 else s[0] + 256 * FromLe(s[1..])
  }

  lemma {:induction false} LeRoundTrip(v: nat, n: nat)
    requires v < Pow256(n)
    ensures FromLe(Le(v, n)) == v
  {
    if n > 0 {
      LeRoundTrip(v / 256, n - 1);
      assert Le(v, n)[1..] == Le(v / 256, n - 1);
    }
  }

  lemma {:induction false} FromLeRoundTrip(s: seq<byte>)
    ensures FromLe(s) < Pow256(|s|)
    ensures Le(FromLe(s), |s|) == s
  {
    hide FromLe, Le;
    FromLeStep(s);
    LeStep(FromLe(s), |s|);
    if s != [] {
      FromLeRoundTrip(s[1..]);
      LowByte(s[0], FromLe(s[1..]));
      assert s == [s[0]] + s[1..];
    } else {
      assert Le(0, 0) == s;
    }
  }

  lemma LowByte(b: byte, n: nat)
    ensures (b + 256 * n) % 256 == b && (b + 256 * n) / 256 == n
  {
  }

  lemma LeStep(v: nat, n: nat)
    ensures Le(v, n) == if n == 0 then [] else [v % 256] + Le(v / 256, n - 1)
  {
  }

  lemma FromLeStep(s: seq<byte>)
    ensures s == [] ==> FromLe(s) == 0
    ensures s != [] ==> FromLe(s) == s[0] + 256 * FromLe(s[1..])
  {
  }

  lemma Widths()
    ensures Pow256(4) == 0x1_0000_0000
    ensures Pow256(8) == 0x1_0000_0000_0000_0000
  {
  }

  // ---------- C strings ----------

  /** Length of the C string at the start of a buffer: the index of its first NUL. */
  function CLen(s: seq<byte>): (n: nat)
    requires 0 in s
    ensures n < |s| && s[n] == 0
    ensures forall k :: 0 <= k < n ==> s[k] != 0
  {
    if s[0] == 0 then 0 else 1 + CLen(s[1..])
  }

  /** The C string at the start of a buffer, without its terminator. */
  function CStr(s: seq<byte>): (t: seq<byte>)
    requires 0 in s
    ensures 0 !in t && |t| == CLen(s)
  {
    s[..CLen(s)]
  }

  lemma FirstNul(s: seq<byte>, n: nat)
    requires n < |s| && s[n] == 0
    requires forall k :: 0 <= k < n ==> s[k] != 0
    ensures CLen(s) == n
  {
  }

  /** The zero-tail invariant: `buf` holds `s` and nothing but zeros behind it. */
  ghost predicate Holds(buf: seq<byte>, s: seq<byte>)
  {
    0 !in s && |s| <= |buf| && buf == s + Zeros(|buf| - |s|)
  }

  lemma HoldsReads(buf: seq<byte>, s: seq<byte>)
    requires Holds(buf, s)
    ensures 0 in buf <==> |s| < |buf|
    ensures |s| < |buf| ==> CStr(buf) == s
  {
    if |s| < |buf| {
      assert buf[|s|] == 0;
      FirstNul(buf, |s|);
    } else {
      assert buf == s;
    }
  }
}
