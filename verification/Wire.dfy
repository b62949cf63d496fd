/** The package message: what the desktop application sends and how the payload takes it apart. */
module Wire {
  import opened Bytes

  const URL_CAP := 0x800
  const NAME_CAP := 0x259
  const ID_CAP := 0x30
  const TYPE_CAP := 0x10

  datatype Package = Package(
    url: seq<byte>, name: seq<byte>, id: seq<byte>, kind: seq<byte>, size: nat, icon: seq<byte>)

  /** What the sender can put on the wire at all: C# array lengths and a 64-bit size. */
  predicate Sendable(p: Package)
  {
    && |p.url| < 0x8000_0000 && |p.name| < 0x8000_0000 && |p.id| < 0x8000_0000
    && |p.kind| < 0x8000_0000 && |p.icon| < 0x8000_0000
    && p.size < 0x1_0000_0000_0000_0000
  }

  function LengthPrefixed(s: seq<byte>): seq<byte> { Le(|s|, 4) + s }

  /** The message for one package, in the order the sender appends its parts. */
  function Encode(p: Package): seq<byte>
  {
    Le(1, 4) + Body(p)
  }

  function Body(p: Package): seq<byte>
  {
    LengthPrefixed(p.url) + (LengthPrefixed(p.name) + (LengthPrefixed(p.id) + (LengthPrefixed(p.kind)
    + (Le(p.size, 8) + LengthPrefixed(p.icon)))))
  }

  /** Four bytes, the lowest first. */
  predicate IsWord(s: seq<byte>, n: nat)
  {
    && |s| == 4 && s[0] == n % 256 && s[1] == n / 256 % 256 && s[2] == n / 0x1_0000 % 256 && s[3] == n / 0x100_0000 % 256
  }

  lemma WordIs(n: nat)
    ensures IsWord(Le(n, 4), n)
  {
    hide Le;
    LeStep(n, 4);
    LeStep(n / 256, 3);
    LeStep(n / 256 / 256, 2);
    LeStep(n / 256 / 256 / 256, 1);
    assert n / 256 / 256 == n / 0x1_0000 && n / 256 / 256 / 256 == n / 0x100_0000;
  }

  /** Eight bytes: the low word, then the high word. */
  lemma LongIs(n: nat)
    ensures IsWord(Le(n, 8)[..4], n) && IsWord(Le(n, 8)[4..], n / 0x1_0000_0000)
  {
    hide Le;
    LeStep(n, 8);
    LeStep(n / 256, 7);
    LeStep(n / 256 / 256, 6);
    LeStep(n / 256 / 256 / 256, 5);
    var high := n / 256 / 256 / 256 / 256;
    assert high == n / 0x1_0000_0000;
    assert n / 256 / 256 == n / 0x1_0000 && n / 256 / 256 / 256 == n / 0x100_0000;
    assert Le(n, 8)[4..] == Le(high, 4);
    WordIs(high);
  }

  /** `s` starts with a text that its length comes before. */
  predicate StartsWith(s: seq<byte>, text: seq<byte>)
  {
    |s| >= 4 + |text| && IsWord(s[..4], |text|) && s[4..4 + |text|] == text
  }

  /** The message byte by byte: the command 1, then address, name, identifier and type, each behind its
      length, the size as eight bytes, and the icon behind its length. */
  lemma Layout(p: Package)
    ensures var e, name, id := Encode(p), 8 + |p.url|, 12 + |p.url| + |p.name|;
            var kind, size := id + 4 + |p.id|, id + 8 + |p.id| + |p.kind|;
            && |e| == size + 12 + |p.icon| && e[..4] == [1, 0, 0, 0]
            && StartsWith(e[4..], p.url) && StartsWith(e[name..], p.name)
            && StartsWith(e[id..], p.id) && StartsWith(e[kind..], p.kind)
            && IsWord(e[size..size + 4], p.size) && IsWord(e[size + 4..size + 8], p.size / 0x1_0000_0000)
            && StartsWith(e[size + 8..], p.icon)
  {
    hide Le, IsWord, LengthPrefixed, StartsWith;
    WordIs(1);
    OneWord(Le(1, 4));
    LongIs(p.size);
    var s5 := LengthPrefixed(p.icon);
    var s4 := Le(p.size, 8) + s5;
    var s3 := LengthPrefixed(p.kind) + s4;
    var s2 := LengthPrefixed(p.id) + s3;
    var s1 := LengthPrefixed(p.name) + s2;
    var e, name, id := Encode(p), 8 + |p.url|, 12 + |p.url| + |p.name|;
    var kind, size := id + 4 + |p.id|, id + 8 + |p.id| + |p.kind|;
    CommandPart(p);
    PrefixedAt(e, 4, p.url, s1);
    PrefixedAt(e, name, p.name, s2);
    PrefixedAt(e, id, p.id, s3);
    PrefixedAt(e, kind, p.kind, s4);
    SizePart(e, size, p.size, s5);
    assert s5 + [] == s5;
    PrefixedAt(e, size + 8, p.icon, []);
  }

  lemma CommandPart(p: Package)
    ensures |Encode(p)| >= 4 && Encode(p)[..4] == Le(1, 4)
    ensures Encode(p)[4..] == LengthPrefixed(p.url) + (LengthPrefixed(p.name) + (LengthPrefixed(p.id) + (LengthPrefixed(p.kind)
      + (Le(p.size, 8) + LengthPrefixed(p.icon)))))
  {
    hide Le, LengthPrefixed;
  }

  lemma PrefixedAt(e: seq<byte>, at: nat, text: seq<byte>, rest: seq<byte>)
    requires at <= |e| && e[at..] == LengthPrefixed(text) + rest
    ensures at + 4 + |text| + |rest| == |e|
    ensures StartsWith(e[at..], text) && e[at + 4 + |text|..] == rest
  {
    hide LengthPrefixed, StartsWith;
    Prefixed(text, rest);
    Dropped(e, at, 4 + |text|);
  }

  /** Dropping twice is dropping once. */
  lemma Dropped(s: seq<byte>, i: nat, j: nat)
    requires i + j <= |s|
    ensures s[i..][j..] == s[i + j..]
  {
  }

  lemma SizePart(e: seq<byte>, at: nat, size: nat, rest: seq<byte>)
    requires at <= |e| && e[at..] == Le(size, 8) + rest
    ensures at + 8 <= |e| && e[at..at + 4] == Le(size, 8)[..4] && e[at + 4..at + 8] == Le(size, 8)[4..] && e[at + 8..] == rest
  {
    hide Le;
    var tail := e[at..];
    assert e[at..at + 4] == tail[..4] && e[at + 4..at + 8] == tail[4..8];
    Dropped(e, at, 8);
  }

  lemma OneWord(s: seq<byte>)
    requires IsWord(s, 1)
    ensures s == [1, 0, 0, 0]
  {
  }

  lemma Prefixed(text: seq<byte>, rest: seq<byte>)
    ensures var s := LengthPrefixed(text) + rest;
            StartsWith(s, text) && |s| == 4 + |text| + |rest| && s[4 + |text|..] == rest
  {
    hide Le, IsWord;
    WordIs(|text|);
    var s := LengthPrefixed(text) + rest;
    assert s[..4] == Le(|text|, 4) && s[4..4 + |text|] == text;
  }

  /** The four zero bytes that stop the service. */
  const QUIT := Le(0, 4)

  // ---------- taking a message apart ----------

  datatype Field = Short | Over(rest: seq<byte>) | Taken(text: seq<byte>, rest: seq<byte>)

  /** One length-prefixed string, refused when longer than `cap` (a length of exactly `cap` passes). */
  function TakeField(s: seq<byte>, cap: nat): Field
  {
    if |s| < 4 then Short
    else
      var n := FromLe(s[..4]);
      if n > cap then Over(s[4..])
      else if |s| < 4 + n then Short
      else Taken(s[4..4 + n], s[4 + n..])
  }

  datatype Parsed =
    | Truncated
    | Quit(rest: seq<byte>)
    | TooLong(rest: seq<byte>)
    | Request(url: seq<byte>, name: seq<byte>, id: seq<byte>, kind: seq<byte>, size: nat,
              iconLength: nat, rest: seq<byte>)

  function Parse(s: seq<byte>): Parsed
  {
    if |s| < 4 then Truncated
    else if FromLe(s[..4]) == 0 then Quit(s[4..])
    else ParseBody(s[4..])
  }

  function ParseBody(s: seq<byte>): Parsed
  {
    match ParseStrings(s)
    case Cut => Truncated
    case Refused(rest) => TooLong(rest)
    case Strings(url, name, id, kind, rest) =>
      if |rest| < 12 then Truncated
      else Request(url, name, id, kind, FromLe(rest[..8]), FromLe(rest[8..12]), rest[12..])
  }

  datatype Header =
    | Cut
    | Refused(rest: seq<byte>)
    | Strings(url: seq<byte>, name: seq<byte>, id: seq<byte>, kind: seq<byte>, rest: seq<byte>)

  function ParseStrings(s: seq<byte>): Header
  {
    match TakeField(s, URL_CAP)
    case Short => Cut
    case Over(rest) => Refused(rest)
    case Taken(url, s1) =>
      match TakeField(s1, NAME_CAP)
      case Short => Cut
      case Over(rest) => Refused(rest)
      case Taken(name, s2) =>
        match TakeField(s2, ID_CAP)
        case Short => Cut
        case Over(rest) => Refused(rest)
        case Taken(id, s3) =>
          match TakeField(s3, TYPE_CAP)
          case Short => Cut
          case Over(rest) => Refused(rest)
          case Taken(kind, s4) => Strings(url, name, id, kind, s4)
  }

  // ---------- round trip ----------

  predicate FitsCaps(p: Package)
  {
    |p.url| <= URL_CAP && |p.name| <= NAME_CAP && |p.id| <= ID_CAP && |p.kind| <= TYPE_CAP
  }

  lemma TakePrefixed(s: seq<byte>, tail: seq<byte>, cap: nat)
    requires |s| < 0x8000_0000
    ensures TakeField(LengthPrefixed(s) + tail, cap) == if |s| <= cap then Taken(s, tail) else Over(s + tail)
  {
    hide Le, FromLe, Pow256;
    Widths();
    LeRoundTrip(|s|, 4);
    var all := LengthPrefixed(s) + tail;
    assert all[..4] == Le(|s|, 4);
    assert all[4..] == s + tail;
    assert all[4..4 + |s|] == s && all[4 + |s|..] == tail;
  }

  lemma TakeTail(size: nat, icon: seq<byte>, tail: seq<byte>)
    requires size < 0x1_0000_0000_0000_0000 && |icon| < 0x8000_0000
    ensures var s := Le(size, 8) + LengthPrefixed(icon) + tail;
            && |s| >= 12 && FromLe(s[..8]) == size && FromLe(s[8..12]) == |icon|
            && s[12..] == icon + tail
  {
    hide Le, FromLe, Pow256;
    Widths();
    LeRoundTrip(size, 8);
    LeRoundTrip(|icon|, 4);
    var s := Le(size, 8) + LengthPrefixed(icon) + tail;
    assert s[..8] == Le(size, 8);
    assert s[8..12] == Le(|icon|, 4);
  }

  /** Decoding undoes encoding, whatever follows the message: the fields, the announced icon length
      and the icon's position come back exactly; a message is refused exactly when a string is over
      its cap. */
  lemma ParseEncoded(p: Package, tail: seq<byte>)
    requires Sendable(p)
    ensures FitsCaps(p) ==>
      Parse(Encode(p) + tail) == Request(p.url, p.name, p.id, p.kind, p.size, |p.icon|, p.icon + tail)
    ensures FitsCaps(p) <==> !Parse(Encode(p) + tail).TooLong?
  {
    hide *;
    Widths();
    LeRoundTrip(1, 4);
    BodyRegroups(p, tail);
    ParseBodyEncoded(p, tail);
    ParseSplits(Le(1, 4), Body(p) + tail);
    assert Encode(p) + tail == Le(1, 4) + (Body(p) + tail) by { EncodeSplits(p, tail); }
  }

  /** With the buffers' sizes written out: exactly which messages are refused. */
  lemma RefusedIff(p: Package, tail: seq<byte>)
    requires Sendable(p)
    ensures Parse(Encode(p) + tail).TooLong? <==>
      |p.url| > 2048 || |p.name| > 601 || |p.id| > 48 || |p.kind| > 16
    ensures Parse(Encode(p) + tail).Request? <==>
      |p.url| <= 2048 && |p.name| <= 601 && |p.id| <= 48 && |p.kind| <= 16
  {
    hide Encode, Parse;
    ParseEncoded(p, tail);
  }

  lemma EncodeSplits(p: Package, tail: seq<byte>)
    ensures Encode(p) + tail == Le(1, 4) + (Body(p) + tail)
  {
  }

  lemma ParseSplits(command: seq<byte>, body: seq<byte>)
    requires |command| == 4
    ensures Parse(command + body) == if FromLe(command) == 0 then Quit(body) else ParseBody(body)
  {
  }

  lemma ParseBodyEncoded(p: Package, tail: seq<byte>)
    requires Sendable(p)
    ensures FitsCaps(p) ==>
      ParseBody(Body(p) + tail) == Request(p.url, p.name, p.id, p.kind, p.size, |p.icon|, p.icon + tail)
    ensures FitsCaps(p) <==> !ParseBody(Body(p) + tail).TooLong?
  {
    hide Le, FromLe, LengthPrefixed, TakeField, Body;
    var t5 := Le(p.size, 8) + LengthPrefixed(p.icon) + tail;
    var t4 := LengthPrefixed(p.kind) + t5;
    var t3 := LengthPrefixed(p.id) + t4;
    var t2 := LengthPrefixed(p.name) + t3;
    TakePrefixed(p.url, t2, URL_CAP);
    TakePrefixed(p.name, t3, NAME_CAP);
    TakePrefixed(p.id, t4, ID_CAP);
    TakePrefixed(p.kind, t5, TYPE_CAP);
    TakeTail(p.size, p.icon, tail);
    BodyRegroups(p, tail);
  }

  lemma BodyRegroups(p: Package, tail: seq<byte>)
    ensures Body(p) + tail ==
      LengthPrefixed(p.url) + (LengthPrefixed(p.name) + (LengthPrefixed(p.id) + (LengthPrefixed(p.kind)
      + (Le(p.size, 8) + LengthPrefixed(p.icon) + tail))))
  {
  }

  lemma ParseQuit(tail: seq<byte>)
    ensures QUIT == [0, 0, 0, 0] && Parse([0, 0, 0, 0] + tail) == Quit(tail)
  {
    hide Le, FromLe, ParseBody;
    WordIs(0);
    assert QUIT == [0, 0, 0, 0];
    Pow256Positive();
    LeRoundTrip(0, 4);
    assert (QUIT + tail)[..4] == QUIT && (QUIT + tail)[4..] == tail;
  }

  lemma Pow256Positive()
    ensures 0 < Pow256(4)
  {
  }

  lemma TakenPrefixed(s: seq<byte>, cap: nat)
    requires TakeField(s, cap).Taken?
    ensures var f := TakeField(s, cap); |f.text| <= cap && s == LengthPrefixed(f.text) + f.rest
  {
    hide Le, FromLe;
    FromLeRoundTrip(s[..4]);
    var f := TakeField(s, cap);
    assert s == s[..4] + (f.text + f.rest);
  }

  lemma TailPrefixed(s: seq<byte>, n: nat)
    requires |s| >= 12 && FromLe(s[8..12]) == n <= |s[12..]|
    ensures s == Le(FromLe(s[..8]), 8) + LengthPrefixed(s[12..][..n]) + s[12..][n..]
  {
    hide Le, FromLe;
    FromLeRoundTrip(s[..8]);
    FromLeRoundTrip(s[8..12]);
    assert s == s[..8] + (s[8..12] + s[12..][..n]) + s[12..][n..];
  }

  /** Every accepted message is the encoding of what was decoded from it, except that any non-zero
      command word means a package. In particular no two different requests share a message. */
  lemma EncodeParsed(s: seq<byte>)
    requires Parse(s).Request? && Parse(s).iconLength <= |Parse(s).rest|
    ensures var r := Parse(s);
            var p := Package(r.url, r.name, r.id, r.kind, r.size, r.rest[..r.iconLength]);
            && FitsCaps(p) && FromLe(s[..4]) != 0
            && s == s[..4] + Body(p) + r.rest[r.iconLength..]
  {
    hide Le, FromLe, Body, TakeField;
    var r := Parse(s);
    var icon, tail := r.rest[..r.iconLength], r.rest[r.iconLength..];
    var p := Package(r.url, r.name, r.id, r.kind, r.size, icon);
    var s1 := TakeField(s[4..], URL_CAP).rest;
    var s2 := TakeField(s1, NAME_CAP).rest;
    var s3 := TakeField(s2, ID_CAP).rest;
    var s4 := TakeField(s3, TYPE_CAP).rest;
    TakenPrefixed(s[4..], URL_CAP);
    TakenPrefixed(s1, NAME_CAP);
    TakenPrefixed(s2, ID_CAP);
    TakenPrefixed(s3, TYPE_CAP);
    TailPrefixed(s4, r.iconLength);
    BodyRegroups(p, tail);
    assert s == s[..4] + s[4..];
  }

  // ---------- what is left of a string in its C buffer ----------

  /** The zero-filled buffer of a given size after a string was read into it. */
  function Buffered(text: seq<byte>, cap: nat): (buf: seq<byte>)
    requires |text| <= cap
    ensures |buf| == cap
  {
    Overwrite(Zeros(cap), 0, text)
  }

  /** A received string survives in its C buffer exactly when it is shorter than the buffer and free
      of NULs: a string of exactly the accepted maximum loses its terminator. */
  lemma StringSurvivesIff(text: seq<byte>, cap: nat)
    requires |text| <= cap
    ensures var buf := Buffered(text, cap);
            (0 in buf && CStr(buf) == text) <==> (|text| < cap && 0 !in text)
    ensures |text| < cap && 0 !in text ==> Holds(Buffered(text, cap), text)
  {
    var buf := Buffered(text, cap);
    assert buf == text + Zeros(cap - |text|);
    if |text| < cap && 0 !in text {
      HoldsReads(buf, text);
    } else {
      assert 0 !in text ==> buf == text;
    }
  }
}
