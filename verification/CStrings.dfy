/** The string helpers of the payload: in-place C buffers and the hexadecimal error code. */
module CStrings {
  import opened Bytes

  // ---------- strlen, append_string, get_file_path, concat ----------

  method StrLen(buffer: array<byte>) returns (n: int)
    requires 0 in buffer[..]
    ensures n == CLen(buffer[..])
  {
    n := 0;
    while buffer[n] != 0
      invariant 0 <= n <= CLen(buffer[..])
      decreases CLen(buffer[..]) - n
    {
      n := n + 1;
    }
  }

  /** Copies `content` behind the string in `buffer`. No terminator is written. */
  method AppendString(buffer: array<byte>, content: array<byte>)
    requires 0 in buffer[..] && 0 in content[..]
    requires CLen(buffer[..]) + CLen(content[..]) <= buffer.Length
    modifies buffer
    ensures buffer[..] == Overwrite(old(buffer[..]), old(CLen(buffer[..])), old(CStr(content[..])))
  {
    hide *;
    var start := StrLen(buffer);
    var n := StrLen(content);
    ghost var was, text := buffer[..], CStr(content[..]);
    TextAt(content[..]);
    assert text[..0] == [] && content[..n] == text;
    OverwriteNothing(was, start);
    for i := 0 to n
      invariant content[..n] == text && |was| == buffer.Length
      invariant buffer[..] == Overwrite(was, start, text[..i])
    {
      ghost var current := buffer[..];
      assert content[i] == content[..n][i] == text[i];
      buffer[start + i] := content[i];
      assert buffer[..] == current[start + i := text[i]];
      OverwriteMore(was, start, text, i, current);
    }
    assert text[..n] == text;
  }

  lemma TextAt(s: seq<byte>)
    requires 0 in s
    ensures CStr(s) == s[..CLen(s)]
  {
  }

  const ICON_DIR := Ascii("/user/data/tmp_")
  const ICON_EXT := Ascii(".png")

  /** A fresh NUL-terminated copy of a literal, as `char x[n] = "..."` allocates it. */
  method Literal(text: seq<byte>) returns (a: array<byte>)
    requires 0 !in text
    ensures fresh(a) && a.Length == |text| + 1
    ensures a[..] == text + [0] && 0 in a[..] && CStr(a[..]) == text
  {
    var all := text + [0];
    a := new byte[|text| + 1](i requires 0 <= i < |all| => all[i]);
    assert a[..] == all && all[|text|] == 0;
    FirstNul(all, |text|);
  }

  /** What `get_file_path` leaves in `path`: everything behind the directory name stays as it was. */
  function FilePath(dir: seq<byte>, path: seq<byte>, name: seq<byte>): (r: seq<byte>)
    requires |dir| < |path| && 0 in path[|dir|..]
    requires |dir| + CLen(path[|dir|..]) + |name| <= |path|
    ensures |r| == |path|
  {
    Overwrite(Overwrite(path, 0, dir), |dir| + CLen(path[|dir|..]), name)
  }

  method GetFilePath(path: array<byte>, name: array<byte>)
    requires path != name && 0 in name[..]
    requires |ICON_DIR| < path.Length && 0 in path[|ICON_DIR|..]
    requires |ICON_DIR| + CLen(path[|ICON_DIR|..]) + CLen(name[..]) <= path.Length
    modifies path
    ensures path[..] == FilePath(ICON_DIR, old(path[..]), CStr(name[..]))
  {
    hide CLen, CStr, Overwrite, FilePath;
    var text := ICON_DIR;
    ghost var was, tail := path[..], path[|text|..];
    path[0] := 0;
    FirstNul(path[..], 0);
    TextAt(path[..]);
    var dir := Literal(text);
    AppendString(path, dir);
    DirectoryWritten(was, was[0 := 0], text);
    assert path[..] == text + tail;
    assert path[..][|text| + CLen(tail)] == 0;
    FirstNul(path[..], |text| + CLen(tail));
    AppendString(path, name);
    FilePathIs(text, was, CStr(name[..]));
  }

  lemma DirectoryWritten(was: seq<byte>, cleared: seq<byte>, text: seq<byte>)
    requires 0 < |text| < |was| && cleared == was[0 := 0]
    ensures Overwrite(cleared, 0, text) == Overwrite(was, 0, text) == text + was[|text|..]
  {
  }

  lemma FilePathIs(dir: seq<byte>, path: seq<byte>, name: seq<byte>)
    requires |dir| < |path| && 0 in path[|dir|..] && |dir| + CLen(path[|dir|..]) + |name| <= |path|
    ensures FilePath(dir, path, name) == Overwrite(Overwrite(path, 0, dir), |dir| + CLen(path[|dir|..]), name)
  {
  }

  /** The copying loop that `concat` runs once for each operand. */
  method CopyOut(source: array<byte>, output: array<byte>, from: nat) returns (offset: nat)
    requires output != source && 0 in source[..]
    requires from + CLen(source[..]) <= output.Length
    modifies output
    ensures offset == from + CLen(source[..])
    ensures output[..] == Overwrite(old(output[..]), from, CStr(source[..]))
  {
    hide *;
    ghost var was, text := output[..], CStr(source[..]);
    TextAt(source[..]);
    offset := from;
    var i := 0;
    assert text[..0] == [];
    OverwriteNothing(was, from);
    while source[i] != 0
      invariant source[..] == old(source[..]) && |was| == output.Length
      invariant 0 <= i <= |text| && offset == from + i
      invariant output[..] == Overwrite(was, from, text[..i])
      decreases |text| - i
    {
      ghost var current := output[..];
      assert source[..][i] == text[i];
      output[offset] := source[i];
      assert output[..] == current[from + i := text[i]];
      OverwriteMore(was, from, text, i, current);
      offset := offset + 1;
      i := i + 1;
    }
    assert text[..i] == text;
  }

  method Concat(a: array<byte>, b: array<byte>, output: array<byte>)
    requires output != a && output != b
    requires 0 in a[..] && 0 in b[..]
    requires CLen(a[..]) + CLen(b[..]) < output.Length
    modifies output
    ensures output[..] == Overwrite(old(output[..]), 0, CStr(a[..]) + CStr(b[..]) + [0])
  {
    hide *;
    ghost var start, first, second := output[..], CStr(a[..]), CStr(b[..]);
    var offset := CopyOut(a, output, 0);
    assert b[..] == old(b[..]);
    offset := CopyOut(b, output, offset);
    OverwriteTwice(start, 0, first, second);
    ghost var joined := output[..];
    output[offset] := 0;
    OneWrite(joined, output[..], offset);
    OverwriteTwice(start, 0, first + second, [0]);
  }

  /** On a zero-tailed buffer appending is concatenation, and the tail stays zero. */
  lemma AppendKeepsZeroTail(buf: seq<byte>, s: seq<byte>, t: seq<byte>)
    requires Holds(buf, s) && 0 !in t && |s| + |t| <= |buf|
    ensures Holds(Overwrite(buf, |s|, t), s + t)
  {
  }

  /** On any buffer with room for a terminator, appending is concatenation exactly when the byte
      behind the appended text already is a NUL: no terminator is ever written. */
  lemma AppendIsConcatIff(buf: seq<byte>, t: seq<byte>)
    requires 0 in buf && 0 !in t && CLen(buf) + |t| < |buf|
    ensures var after := Overwrite(buf, CLen(buf), t);
            buf[CLen(buf) + |t|] == 0 <==> (0 in after && CStr(after) == CStr(buf) + t)
  {
    hide *;
    var n := CLen(buf);
    var after := Overwrite(buf, n, t);
    forall k | 0 <= k < n + |t|
      ensures after[k] != 0 && after[k] == (CStr(buf) + t)[k]
    {
      OverwriteAt(buf, n, t, k);
      TextAt(buf);
    }
    OverwriteAt(buf, n, t, n + |t|);
    if buf[n + |t|] == 0 {
      FirstNul(after, n + |t|);
      TextAt(after);
      assert after[..n + |t|] == CStr(buf) + t;
    } else if 0 in after {
      assert CLen(after) != n + |t|;
    }
  }

  /** On a cleared path buffer `get_file_path` and `concat` build the same C string. */
  lemma FilePathAgreesWithConcat(dir: seq<byte>, path: seq<byte>, output: seq<byte>, name: seq<byte>)
    requires Holds(path, []) && 0 !in dir && 0 !in name
    requires |dir| + |name| < |path| && |dir| + |name| < |output|
    ensures 0 in path[|dir|..] && CLen(path[|dir|..]) == 0
    ensures var joined := Overwrite(output, 0, dir + name + [0]);
            && 0 in joined && 0 in FilePath(dir, path, name)
            && CStr(FilePath(dir, path, name)) == CStr(joined) == dir + name
  {
    FilePathHolds(dir, path, name);
    HoldsReads(FilePath(dir, path, name), dir + name);
    JoinedReads(output, dir + name);
  }

  lemma FilePathHolds(dir: seq<byte>, path: seq<byte>, name: seq<byte>)
    requires Holds(path, []) && 0 !in dir && 0 !in name && |dir| + |name| < |path|
    ensures 0 in path[|dir|..] && CLen(path[|dir|..]) == 0
    ensures Holds(FilePath(dir, path, name), dir + name)
  {
    assert path[|dir|..][0] == 0;
    hide CLen, Overwrite, Holds;
    FirstNul(path[|dir|..], 0);
    AppendKeepsZeroTail(path, [], dir);
    assert [] + dir == dir;
    AppendKeepsZeroTail(Overwrite(path, 0, dir), dir, name);
  }

  lemma JoinedReads(output: seq<byte>, text: seq<byte>)
    requires 0 !in text && |text| < |output|
    ensures var joined := Overwrite(output, 0, text + [0]); 0 in joined && CStr(joined) == text
  {
    var joined := Overwrite(output, 0, text + [0]);
    assert joined[|text|] == 0 && joined[..|text|] == text;
    FirstNul(joined, |text|);
  }

  // ---------- int32ToHex ----------

  predicate Int32(v: int) { -0x8000_0000 <= v < 0x8000_0000 }

  /** The value of the same 32 bits read as an unsigned number. */
  function Unsigned(v: int): (u: nat)
    requires Int32(v)
    ensures u < 0x1_0000_0000
  {
    if v < 0 then v + 0x1_0000_0000 else v
  }

  function Pow16(n: nat): (p: nat)
    ensures p > 0
  {
    if n == 0 then 1 else 16 * Pow16(n - 1)
  }

  function HexChar(d: nat): byte
    requires d < 16
  {
    if d < 10 then '0' as int + d else 'A' as int + (d - 10)
  }

  predicate IsHex(c: byte) { '0' as int <= c <= '9' as int || 'A' as int <= c <= 'F' as int }

  function HexValue(c: byte): (d: nat)
    requires IsHex(c)
    ensures d < 16 && HexChar(d) == c
  {
    if c <= '9' as int then c - '0' as int else c - 'A' as int + 10
  }

  predicate AllHex(s: seq<byte>) { forall i :: 0 <= i < |s| ==> IsHex(s[i]) }

  /** The value of an upper-case hexadecimal numeral. */
  function ParseHex(s: seq<byte>): nat
    requires AllHex(s)
  {
    if s == [] then 0 else 16 * ParseHex(s[..|s| - 1]) + HexValue(s[|s| - 1])
  }

  /** The last `n` hexadecimal digits of `u`. */
  function HexDigits(u: nat, n: nat): (s: seq<byte>)
    ensures |s| == n && AllHex(s) && 0 !in s
  {
    if n == 0 then [] else HexDigits(u / 16, n - 1) + [HexChar(u % 16)]
  }

  function HexText(v: int): (s: seq<byte>)
    requires Int32(v)
    ensures |s| == 10 && 0 !in s && AllHex(s[2..])
  {
    var digits := HexDigits(Unsigned(v), 8);
    var text := Ascii("0x") + digits;
    assert text[2..] == digits;
    text
  }

  lemma {:induction false} HexDigitsParse(u: nat, n: nat)
    requires u < Pow16(n)
    ensures ParseHex(HexDigits(u, n)) == u
  {
    hide ParseHex;
    if n == 0 {
      NoDigits();
    } else {
      HexDigitsParse(u / 16, n - 1);
      DigitAppended(HexDigits(u / 16, n - 1), u % 16);
    }
  }

  lemma NoDigits()
    ensures AllHex([]) && ParseHex([]) == 0
  {
  }

  lemma DigitAppended(s: seq<byte>, d: nat)
    requires AllHex(s) && d < 16
    ensures AllHex(s + [HexChar(d)]) && ParseHex(s + [HexChar(d)]) == 16 * ParseHex(s) + d
  {
    assert (s + [HexChar(d)])[..|s|] == s;
  }

  /** A numeral is the only one of its length with its value. */
  lemma {:induction false} NumeralUnique(s: seq<byte>)
    requires AllHex(s)
    ensures ParseHex(s) < Pow16(|s|)
    ensures HexDigits(ParseHex(s), |s|) == s
  {
    hide ParseHex;
    if s == [] {
      NoDigits();
    } else {
      var init, d := s[..|s| - 1], HexValue(s[|s| - 1]);
      NumeralUnique(init);
      assert s == init + [HexChar(d)];
      DigitAppended(init, d);
      assert ParseHex(s) / 16 == ParseHex(init) && ParseHex(s) % 16 == d;
    }
  }

  lemma Pow16Of8()
    ensures Pow16(8) == 0x1_0000_0000
  {
    assert Pow16(4) == 0x1_0000;
    assert Pow16(6) == 16 * (16 * Pow16(4));
    assert Pow16(8) == 16 * (16 * Pow16(6));
  }

  /** The text of a code parses back to its two's-complement value. */
  lemma HexTextParses(v: int)
    requires Int32(v)
    ensures ParseHex(HexText(v)[2..]) == Unsigned(v)
  {
    Pow16Of8();
    assert HexText(v)[2..] == HexDigits(Unsigned(v), 8);
    HexDigitsParse(Unsigned(v), 8);
  }

  /** The arithmetic right shift `value >> 4 * i`: every nibble shifted out is a floor division. */
  function ShiftRight(value: int, i: nat): int
  {
    if i == 0 then value else ShiftRight(value, i - 1) / 16
  }

  /** Shifting a negative value and its two's complement differ by a power of sixteen. */
  lemma {:induction false} ShiftUnsigned(v: int, i: nat)
    requires Int32(v) && i <= 8
    ensures ShiftRight(Unsigned(v), i) == ShiftRight(v, i) + (if v < 0 then Pow16(8 - i) else 0)
  {
    if i == 0 {
      Pow16Of8();
    } else {
      ShiftUnsigned(v, i - 1);
      assert Pow16(8 - (i - 1)) == 16 * Pow16(8 - i);
    }
  }

  lemma {:induction false} ShiftBound(u: nat, i: nat, n: nat)
    requires u < Pow16(i + n)
    ensures 0 <= ShiftRight(u, i) < Pow16(n)
  {
    if i > 0 {
      ShiftBound(u, i - 1, n + 1);
    }
  }

  /** Masking a shifted negative value gives the nibble of its two's complement. */
  lemma NibbleStep(v: int, i: nat)
    requires Int32(v) && i < 8
    ensures ShiftRight(Unsigned(v), i) == 16 * ShiftRight(Unsigned(v), i + 1) + ShiftRight(v, i) % 16
  {
    ShiftUnsigned(v, i);
    assert Pow16(8 - i) == 16 * Pow16(7 - i);
  }

  lemma {:induction false} ShiftOnce(u: nat, i: nat)
    ensures ShiftRight(u / 16, i) == ShiftRight(u, i + 1)
  {
    if i > 0 {
      ShiftOnce(u, i - 1);
    }
  }

  lemma {:induction false} HexDigitAt(u: nat, n: nat, k: nat)
    requires k < n
    ensures 0 <= ShiftRight(u, n - 1 - k) % 16 < 16 && HexDigits(u, n)[k] == HexChar(ShiftRight(u, n - 1 - k) % 16)
  {
    if k < n - 1 {
      HexDigitAt(u / 16, n - 1, k);
      ShiftOnce(u, n - 2 - k);
    }
  }

  /** The text of a code, character by character: "0x", then its nibbles from the highest on, in upper case. */
  lemma HexTextIs(v: int, k: nat)
    requires Int32(v) && k < 8
    ensures HexText(v)[0] == 48 && HexText(v)[1] == 120
    ensures var d := ShiftRight(v, 7 - k) % 16; HexText(v)[2 + k] == if d < 10 then 48 + d else 55 + d
  {
    hide HexDigits, Unsigned, ShiftRight;
    HexDigitAt(Unsigned(v), 8, k);
    NibbleStep(v, 7 - k);
    assert HexText(v)[2 + k] == HexDigits(Unsigned(v), 8)[k];
  }

  method Int32ToHex(value: int, hex: array<byte>)
    requires Int32(value) && 11 <= hex.Length
    modifies hex
    ensures hex[..] == Overwrite(old(hex[..]), 0, HexText(value) + [0])
  {
    hide ParseHex, HexDigits, ShiftRight, Pow16, Overwrite, AllHex, HexText, Unsigned;
    ghost var was, u := hex[..], Unsigned(value);
    hex[0] := '0' as int;
    hex[1] := 'x' as int;
    AllShifted(value);
    var i, x := 7, 2;
    ghost var digits := [];
    NoDigits();
    while i >= 0
      invariant -1 <= i <= 7 && x == 9 - i == 2 + |digits|
      invariant AllHex(digits) && ParseHex(digits) == ShiftRight(u, i + 1)
      invariant forall k :: 0 <= k < |digits| ==> hex[2 + k] == digits[k]
      invariant hex[0] == '0' as int && hex[1] == 'x' as int
      invariant forall k :: 11 <= k < hex.Length ==> hex[k] == was[k]
    {
      var part := ShiftRight(value, i) % 16;
      if part < 10 {
        hex[x] := '0' as int + part;
      } else {
        hex[x] := 'A' as int + (part - 10);
      }
      NibbleStep(value, i);
      DigitAppended(digits, part);
      digits := digits + [HexChar(part)];
      i, x := i - 1, x + 1;
    }
    hex[10] := 0;
    NotShifted(u);
    NumeralUnique(digits);
    HexTextOf(value, digits);
    HexWritten(was, hex[..], digits);
  }

  lemma AllShifted(value: int)
    requires Int32(value)
    ensures ShiftRight(Unsigned(value), 8) == 0
  {
    Pow16Of8();
    ShiftBound(Unsigned(value), 8, 0);
  }

  lemma NotShifted(u: nat)
    ensures ShiftRight(u, 0) == u
  {
  }

  lemma HexTextOf(value: int, digits: seq<byte>)
    requires Int32(value) && digits == HexDigits(Unsigned(value), 8)
    ensures HexText(value) == Ascii("0x") + digits
  {
  }

  lemma HexWritten(was: seq<byte>, now: seq<byte>, digits: seq<byte>)
    requires |digits| == 8 && 11 <= |was| == |now|
    requires now[0] == '0' as int && now[1] == 'x' as int && now[10] == 0
    requires forall k :: 0 <= k < 8 ==> now[2 + k] == digits[k]
    requires forall k :: 11 <= k < |was| ==> now[k] == was[k]
    ensures now == Overwrite(was, 0, Ascii("0x") + digits + [0])
  {
    var text := Ascii("0x") + digits + [0];
    forall k | 0 <= k < |was|
      ensures now[k] == Overwrite(was, 0, text)[k]
    {
      OverwriteAt(was, 0, text, k);
      if 2 <= k < 10 {
        assert now[2 + (k - 2)] == digits[k - 2];
      }
    }
  }

  // ---------- error messages ----------

  /** An error message: a text, then the code. */
  function ErrorText(prefix: seq<byte>, code: int): (t: seq<byte>)
    requires Int32(code) && 0 !in prefix
    ensures |t| == |prefix| + 10 && 0 !in t
  {
    prefix + HexText(code)
  }

  /** The last eight characters of an error message are the code, whatever its prefix. */
  lemma CodeRecoverable(prefix: seq<byte>, code: int)
    requires Int32(code) && 0 !in prefix
    ensures var t := ErrorText(prefix, code);
            AllHex(t[|t| - 8..]) && ParseHex(t[|t| - 8..]) == Unsigned(code)
  {
    var t := ErrorText(prefix, code);
    assert t[|t| - 8..] == HexText(code)[2..];
    HexTextParses(code);
  }

  /** `int32ToHex` then `concat`, as each error branch of `main` does it. */
  method ErrorMessage(prefix: seq<byte>, code: int) returns (text: seq<byte>)
    requires Int32(code) && 0 !in prefix && |prefix| + 11 <= 0x200
    ensures text == ErrorText(prefix, code)
  {
    hide *;
    var err := new byte[0x200](_ => 0);
    var errCode := new byte[0x20](_ => 0);
    assert err[..] == Zeros(0x200);
    ghost var blank := errCode[..];
    Int32ToHex(code, errCode);
    JoinedReads(blank, HexText(code));
    var a := Literal(prefix);
    Concat(a, errCode, err);
    JoinedReads(Zeros(0x200), prefix + HexText(code));
    var len := StrLen(err);
    text := err[..len];
    TextAt(err[..]);
    ErrorTextIs(prefix, code);
  }

  lemma ErrorTextIs(prefix: seq<byte>, code: int)
    requires Int32(code) && 0 !in prefix
    ensures ErrorText(prefix, code) == prefix + HexText(code)
  {
  }
}
