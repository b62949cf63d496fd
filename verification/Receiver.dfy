/** The receiving half of the payload: sockets, the streamed icon and `get_pkg_info`. */
module Receiver {
  import opened Bytes
  import opened CStrings
  import opened Wire

  // ---------- the environment: a connection and the icon file ----------

  /** One connection. `unread` is what the peer sends and the payload has not consumed yet. */
  class Socket {
    var unread: seq<byte>
    ghost var failed: bool  // some read has returned an error

    constructor (bytes: seq<byte>)
      ensures unread == bytes && !failed
    {
      unread, failed := bytes, false;
    }

    /** `read` of a short header field: delivers the whole request, or all that is left of it. */
    method ReadField(buffer: array<byte>, count: nat) returns (k: int)
      requires count <= buffer.Length
      modifies this, buffer
      ensures k == if count <= |old(unread)| then count else |old(unread)|
      ensures unread == old(unread)[k..] && failed == old(failed)
      ensures buffer[..] == Overwrite(old(buffer[..]), 0, old(unread)[..k])
    {
      k := if count <= |unread| then count else |unread|;
      ghost var before := buffer[..];
      for i := 0 to k
        invariant unread == old(unread) && failed == old(failed)
        invariant forall j :: 0 <= j < i ==> buffer[j] == unread[j]
        invariant forall j :: i <= j < buffer.Length ==> buffer[j] == before[j]
      {
        buffer[i] := unread[i];
      }
      unread := unread[k..];
    }

    /** `read` of a piece of the icon: an error, end of input, or any positive amount up to the request. */
    method ReadSome(buffer: array<byte>, count: int) returns (k: int)
      requires 1 <= count <= buffer.Length || unread == []
      modifies this, buffer
      ensures -1 <= k && (k == 0 ==> unread == []) && (0 < k ==> k <= count)
      ensures failed == (old(failed) || k == -1)
      ensures 0 < k ==> k <= buffer.Length && old(unread) == buffer[..k] + unread
      ensures k <= 0 ==> unread == old(unread)
    {
      k := *;
      if unread == [] {
        k := if k == 0 then 0 else -1;
      } else if k < 1 || count < k || |unread| < k {
        k := -1;
      }
      if 0 < k {
        for i := 0 to k
          invariant unread == old(unread) && failed == old(failed)
          invariant forall j :: 0 <= j < i ==> buffer[j] == unread[j]
        {
          buffer[i] := unread[i];
        }
        unread := unread[k..];
      }
      failed := failed || k == -1;
    }
  }

  /** The icon file of one request. */
  class IconFile {
    var path: Option<seq<byte>>
    var contents: seq<byte>
    ghost var failed: bool  // opening it or some write has failed

    constructor ()
      ensures path == None && contents == [] && !failed
    {
      path, contents, failed := None, [], false;
    }

    /** `open` for writing: truncates, or fails. */
    method Open(name: seq<byte>)
      modifies this
      ensures contents == [] && (path == Some(name) || path == None)
      ensures failed == (old(failed) || path == None)
    {
      var granted: bool := *;
      contents := [];
      if granted {
        path := Some(name);
      } else {
        path, failed := None, true;
      }
    }

    /** `write`: fails, or appends any positive amount of the request. */
    method Write(buffer: array<byte>, from: nat, count: int) returns (k: int)
      requires 0 < count && from + count <= buffer.Length
      modifies this
      ensures k <= count && path == old(path)
      ensures failed == (old(failed) || k <= 0)
      ensures contents == old(contents) + (if k <= 0 then [] else buffer[from..from + k])
    {
      k := *;
      if count < k || path == None {
        k := -1;
      }
      failed := failed || k <= 0;
      if 0 < k {
        contents := contents + buffer[from..from + k];
      }
    }
  }

  // ---------- header fields ----------

  method GetUint32(sock: Socket) returns (v: nat)
    modifies sock
    ensures v < 0x1_0000_0000 && sock.failed == old(sock.failed)
    ensures |old(sock.unread)| >= 4 ==> v == FromLe(old(sock.unread)[..4]) && sock.unread == old(sock.unread)[4..]
    ensures |old(sock.unread)| < 4 ==> sock.unread == []
  {
    hide FromLe, Pow256;
    var dword := new byte[4];
    var k := sock.ReadField(dword, 4);
    v := FromLe(dword[..]);
    FromLeRoundTrip(dword[..]);
    Widths();
    assert k == 4 ==> dword[..] == old(sock.unread)[..4];
  }

  method GetUint64(sock: Socket) returns (v: nat)
    modifies sock
    ensures v < 0x1_0000_0000_0000_0000 && sock.failed == old(sock.failed)
    ensures |old(sock.unread)| >= 8 ==> v == FromLe(old(sock.unread)[..8]) && sock.unread == old(sock.unread)[8..]
    ensures |old(sock.unread)| < 8 ==> sock.unread == []
  {
    hide FromLe, Pow256;
    var qword := new byte[8];
    var k := sock.ReadField(qword, 8);
    v := FromLe(qword[..]);
    FromLeRoundTrip(qword[..]);
    Widths();
    assert k == 8 ==> qword[..] == old(sock.unread)[..8];
  }

  /** Reads one string into a zeroed buffer. When the stream ends inside the field the result is
      open, except that a terminator survives and nothing is left to read. */
  method GetString(sock: Socket, buffer: array<byte>) returns (r: int)
    requires 1 <= buffer.Length && buffer[..] == Zeros(buffer.Length)
    modifies sock, buffer
    ensures (r == 0 || r == -1) && sock.failed == old(sock.failed)
    ensures match TakeField(old(sock.unread), buffer.Length)
            case Short => sock.unread == [] && (r == 0 ==> 0 in buffer[..])
            case Over(rest) => r == -1 && sock.unread == rest
            case Taken(text, rest) => r == 0 && sock.unread == rest && buffer[..] == Buffered(text, buffer.Length)
  {
    hide FromLe;
    ghost var stream := sock.unread;
    var length := GetUint32(sock);
    buffer[0] := 0;
    assert buffer[..] == Zeros(buffer.Length);
    if length > buffer.Length {
      return -1;
    }
    ghost var left := sock.unread;
    var k := sock.ReadField(buffer, length);
    if k < length {
      assert buffer[..][buffer.Length - 1] == 0;
    }
    return 0;
  }

  // ---------- the icon ----------

  /** The inner loop of `get_file`: writes out one buffer, in whatever pieces the file accepts.
      What was written and what is still in the buffer always make up the whole. */
  method WriteOut(file: IconFile, buffer: array<byte>, count: nat) returns (ok: bool)
    requires count <= buffer.Length
    modifies file
    ensures file.path == old(file.path) && file.failed == (old(file.failed) || !ok)
    ensures |old(file.contents)| <= |file.contents| <= |old(file.contents)| + count
    ensures file.contents == old(file.contents) + buffer[..|file.contents| - |old(file.contents)|]
    ensures ok ==> file.contents == old(file.contents) + buffer[..count]
  {
    var readed := count;
    var pBuff := 0;
    while readed > 0
      invariant 0 <= readed && pBuff + readed == count
      invariant file.path == old(file.path) && file.failed == old(file.failed)
      invariant file.contents == old(file.contents) + buffer[..pBuff]
    {
      var written := file.Write(buffer, pBuff, readed);
      if written <= 0 {
        return false;
      }
      assert buffer[..pBuff] + buffer[pBuff..pBuff + written] == buffer[..pBuff + written];
      pBuff := pBuff + written;
      readed := readed - written;
    }
    return true;
  }

  /** `rest` is what has not been consumed of `stream`, at most the announced number of bytes has been
      consumed, and `contents` is a prefix of what has. */
  ghost predicate Copied(stream: seq<byte>, announced: int, rest: seq<byte>, contents: seq<byte>)
  {
    && |contents| <= |stream| - |rest|
    && (rest == stream || |stream| - |rest| <= announced)
    && rest == stream[|stream| - |rest|..] && contents == stream[..|contents|]
  }

  /** Conservation: the file, the part of the buffer not written yet and the unread rest make up the stream. */
  ghost predicate Conserved(stream: seq<byte>, contents: seq<byte>, piece: seq<byte>, rest: seq<byte>)
  {
    stream == contents + piece + rest
  }

  /** The copy loop of `get_file`, under every way of cutting up reads and writes: every consumed byte
      is saved unless a write fails; without any failure the announced length, or all that arrived,
      is in the file. Every request stays within the buffer, and the loop ends. */
  method CopyIcon(sock: Socket, file: IconFile, announced: int)
    requires file.contents == [] && !sock.failed
    requires 0 < announced || sock.unread == []
    modifies sock, file
    ensures file.path == old(file.path) && (old(file.failed) ==> file.failed)
    ensures |sock.unread| <= |old(sock.unread)|
    ensures Copied(old(sock.unread), announced, sock.unread, file.contents)
    ensures !file.failed ==> |file.contents| == |old(sock.unread)| - |sock.unread|
    ensures !file.failed && !sock.failed ==> |file.contents| == announced || sock.unread == []
  {
    hide *;
    var len := announced;
    var buffer := new byte[4096];
    var bufferSize := buffer.Length;
    ghost var stream := sock.unread;
    var readed := sock.ReadSome(buffer, if len < bufferSize then len else bufferSize);
    ghost var piece := if 0 < readed then buffer[..readed] else [];
    Refilled(stream, file.contents, stream, piece, sock.unread);
    while readed > 0
      invariant file.path == old(file.path) && file.failed == old(file.failed)
      invariant sock.failed == (readed == -1)
      invariant len == announced - |file.contents| && readed <= bufferSize
      invariant 0 < readed ==> readed <= len && buffer[..readed] == piece
      invariant readed <= 0 ==> piece == []
      invariant Conserved(stream, file.contents, piece, sock.unread)
      invariant file.contents == [] || 0 <= len
      invariant readed == 0 ==> sock.unread == []
      decreases len
    {
      len := len - readed;
      ghost var before, rest := file.contents, sock.unread;
      var ok := WriteOut(file, buffer, readed);
      assert buffer[..readed] == piece;
      if !ok {
        ghost var saved := |file.contents| - |before|;
        assert buffer[..saved] == piece[..saved];
        Partial(stream, before, piece, rest, announced, saved);
        return;
      }
      Saved(stream, before, piece, rest);
      piece := [];
      if len <= 0 {
        break;
      }
      readed := sock.ReadSome(buffer, if len < bufferSize then len else bufferSize);
      piece := if 0 < readed then buffer[..readed] else [];
      Refilled(stream, file.contents, rest, piece, sock.unread);
    }
    Partial(stream, file.contents, [], sock.unread, announced, 0);
  }

  lemma Saved(stream: seq<byte>, contents: seq<byte>, piece: seq<byte>, rest: seq<byte>)
    requires Conserved(stream, contents, piece, rest)
    ensures Conserved(stream, contents + piece, [], rest)
  {
  }

  lemma Refilled(stream: seq<byte>, contents: seq<byte>, before: seq<byte>, piece: seq<byte>, rest: seq<byte>)
    requires (stream == before && contents == []) || Conserved(stream, contents, [], before)
    requires before == piece + rest
    ensures Conserved(stream, contents, piece, rest)
  {
  }

  lemma Partial(stream: seq<byte>, before: seq<byte>, piece: seq<byte>, rest: seq<byte>, announced: int, saved: nat)
    requires Conserved(stream, before, piece, rest) && saved <= |piece|
    requires before + piece == [] || |before| + |piece| <= announced
    ensures Copied(stream, announced, rest, before + piece[..saved])
    ensures saved == 0 ==> Copied(stream, announced, rest, before)
    ensures |stream| == |before| + |piece| + |rest|
  {
  }

  /** The signed value of the same 32 bits. */
  function Signed(v: nat): int
    requires v < 0x1_0000_0000
  {
    if v < 0x8000_0000 then v else v - 0x1_0000_0000
  }

  /** What `get_file` leaves behind: the socket, the path buffer and the file. */
  datatype IconState = IconState(
    rest: seq<byte>, readFailed: bool, pathBuffer: seq<byte>,
    path: Option<seq<byte>>, contents: seq<byte>, writeFailed: bool)

  ghost function Observe(sock: Socket, outPath: array<byte>, file: IconFile): IconState
    reads sock, outPath, file
  {
    IconState(sock.unread, sock.failed, outPath[..], file.path, file.contents, file.failed)
  }

  /** No icon was announced: the path is empty and no file was touched. */
  ghost predicate NoIcon(stream: seq<byte>, s: IconState)
  {
    && Holds(s.pathBuffer, []) && s.rest == stream
    && s.path == None && s.contents == [] && !s.readFailed && !s.writeFailed
  }

  /** An icon was announced: its path is in the buffer, and its bytes are conserved. */
  ghost predicate IconSaved(stream: seq<byte>, announced: int, path: seq<byte>, s: IconState)
  {
    && Holds(s.pathBuffer, path) && (s.path == Some(path) || s.writeFailed)
    && Copied(stream, announced, s.rest, s.contents)
    && (!s.writeFailed ==> |s.contents| == |stream| - |s.rest|)
    && (!s.writeFailed && !s.readFailed ==> |s.contents| == announced || s.rest == [])
  }

  /** The first half of `get_file`'s work on an announced icon: names the file and opens it. */
  method OpenIcon(outPath: array<byte>, name: array<byte>, file: IconFile)
    requires outPath != name && Holds(outPath[..], []) && 0 in name[..]
    requires |ICON_DIR| + CLen(name[..]) < outPath.Length
    modifies outPath, file
    ensures Holds(outPath[..], ICON_DIR + CStr(name[..]))
    ensures file.path == Some(ICON_DIR + CStr(name[..])) || (file.path == None && file.failed)
    ensures file.contents == []
  {
    hide Overwrite, Holds, FilePath;
    FilePathHolds(ICON_DIR, outPath[..], CStr(name[..]));
    GetFilePath(outPath, name);
    HoldsReads(outPath[..], ICON_DIR + CStr(name[..]));
    var n := StrLen(outPath);
    file.Open(outPath[..n]);
  }

  /** Reads the icon length and, unless it is zero, streams the icon into the file named after `name`. */
  method GetFile(sock: Socket, outPath: array<byte>, name: array<byte>, file: IconFile) returns (r: int)
    requires outPath != name && Holds(outPath[..], []) && 0 in name[..]
    requires |ICON_DIR| + CLen(name[..]) < outPath.Length
    requires file.path == None && file.contents == [] && !file.failed && !sock.failed
    requires |sock.unread| >= 4 ==> FromLe(sock.unread[..4]) < 0x8000_0000
    modifies sock, outPath, file
    ensures |old(sock.unread)| < 4 ==> sock.unread == [] && (r == 0 || r == 1)
    ensures |old(sock.unread)| >= 4 ==>
      var n, stream := FromLe(old(sock.unread)[..4]), old(sock.unread)[4..];
      if n == 0 then r == 0 && NoIcon(stream, Observe(sock, outPath, file))
      else r == 1 && IconSaved(stream, n, ICON_DIR + CStr(name[..]), Observe(sock, outPath, file))
  {
    hide FromLe, Copied, Holds, CLen, CStr;
    ClearedStays(outPath[..]);
    outPath[0] := 0;
    var word := GetUint32(sock);
    var len := Signed(word);
    if len == 0 {
      return 0;
    }
    OpenIcon(outPath, name, file);
    CopyIcon(sock, file, len);
    return 1;
  }

  lemma ClearedStays(buf: seq<byte>)
    requires Holds(buf, []) && 0 < |buf|
    ensures buf[0 := 0] == buf
  {
  }

  // ---------- get_pkg_info ----------

  const ICON_NAME_CAP := 100
  const ICON_PATH_CAP := 0x800

  /** The download parameters handed to the installer service; strings are the C buffers they point to. */
  datatype Params = Params(
    userId: int, entitlementType: int, option: int,
    id: seq<byte>, contentUrl: seq<byte>, contentName: seq<byte>,
    iconPath: seq<byte>, packageType: seq<byte>, packageSize: nat)

  class DownloadParams {
    const userId: int
    const entitlementType: int
    const option: int
    var id: seq<byte>
    var contentUrl: seq<byte>
    var contentName: seq<byte>
    var iconPath: seq<byte>
    var packageType: seq<byte>
    var packageSize: nat

    constructor (uid: int)
      ensures View() == Params(uid, 5, 0x10000, [0], [0], [0], [0], Ascii("PS4GD") + [0], 0)
    {
      userId, entitlementType, option := uid, 5, 0x10000;
      id, contentUrl, contentName, iconPath := [0], [0], [0], [0];
      packageType, packageSize := Ascii("PS4GD") + [0], 0;
    }

    function View(): Params
      reads this
    {
      Params(userId, entitlementType, option, id, contentUrl, contentName, iconPath, packageType, packageSize)
    }

    /** The six assignments at the end of `get_pkg_info`. */
    method Fill(id: array<byte>, url: array<byte>, name: array<byte>, size: nat, icon: array<byte>, kind: array<byte>)
      modifies this
      ensures iconPath == icon[..]
      ensures View() == old(View()).(id := id[..], contentUrl := url[..], contentName := name[..],
                                     iconPath := icon[..], packageType := kind[..], packageSize := size)
    {
      this.id, contentUrl, contentName := id[..], url[..], name[..];
      packageSize, iconPath, packageType := size, icon[..], kind[..];
    }
  }

  /** The identifier field of a message body, as far as it arrives. */
  function IdField(body: seq<byte>): Field
  {
    match TakeField(body, URL_CAP)
    case Short => Short
    case Over(_) => Short
    case Taken(_, s1) =>
      match TakeField(s1, NAME_CAP)
      case Short => Short
      case Over(_) => Short
      case Taken(_, s2) => TakeField(s2, ID_CAP)
  }

  /** `strlen` is going to find a terminator in the identifier's buffer. */
  predicate IdTerminated(body: seq<byte>)
  {
    match IdField(body)
    case Short => true
    case Over(_) => true
    case Taken(id, _) => |id| <= ID_CAP && (0 in Buffered(id, ID_CAP) || ParseStrings(body).Refused?)
  }

  /** The inputs on which the C code has a defined meaning: an identifier that is used keeps its
      terminator, and the announced icon length is a non-negative `int`. */
  predicate Admissible(stream: seq<byte>)
  {
    && (|stream| >= 4 && FromLe(stream[..4]) != 0 ==> IdTerminated(stream[4..]))
    && (Parse(stream).Request? ==> Parse(stream).iconLength < 0x8000_0000)
  }

  function IconName(id: seq<byte>): seq<byte>
    requires 0 in id
  {
    CStr(id) + ICON_EXT
  }

  /** The parameters after the request `q`: every variable field comes from `q`. */
  function Filled(before: Params, q: Parsed): Params
    requires q.Request? && FitsHeader(q) && 0 in Buffered(q.id, ID_CAP)
  {
    before.(id := Buffered(q.id, ID_CAP),
          contentUrl := Buffered(q.url, URL_CAP),
          contentName := Buffered(q.name, NAME_CAP),
          iconPath := Buffered(if q.iconLength == 0 then [] else ICON_DIR + IconName(Buffered(q.id, ID_CAP)), ICON_PATH_CAP),
          packageType := Buffered(q.kind, TYPE_CAP),
          packageSize := q.size)
  }

  predicate FitsHeader(q: Parsed)
    requires q.Request?
  {
    |q.url| <= URL_CAP && |q.name| <= NAME_CAP && |q.id| <= ID_CAP && |q.kind| <= TYPE_CAP
  }

  /** Reads the four strings into their buffers, stopping at the first one that is refused. */
  method ReadStrings(sock: Socket, url: array<byte>, name: array<byte>, id: array<byte>, kind: array<byte>)
    returns (r: int)
    requires url != name && url != id && url != kind && name != id && name != kind && id != kind
    requires url.Length == URL_CAP && name.Length == NAME_CAP && id.Length == ID_CAP && kind.Length == TYPE_CAP
    requires url[..] == Zeros(URL_CAP) && name[..] == Zeros(NAME_CAP)
    requires id[..] == Zeros(ID_CAP) && kind[..] == Zeros(TYPE_CAP)
    modifies sock, url, name, id, kind
    ensures (r == 0 || r == -1) && sock.failed == old(sock.failed)
    ensures match ParseStrings(old(sock.unread))
            case Cut => sock.unread == [] && (r == 0 && IdTerminated(old(sock.unread)) ==> 0 in id[..])
            case Refused(rest) => r == -1 && sock.unread == rest
            case Strings(u, n, i, k, rest) =>
              && r == 0 && sock.unread == rest
              && |u| <= URL_CAP && |n| <= NAME_CAP && |i| <= ID_CAP && |k| <= TYPE_CAP
              && url[..] == Buffered(u, URL_CAP) && name[..] == Buffered(n, NAME_CAP)
              && id[..] == Buffered(i, ID_CAP) && kind[..] == Buffered(k, TYPE_CAP)
  {
    hide Zeros, Buffered, TakeField;
    ghost var s0 := sock.unread;
    NothingLeft();
    TakenFits(s0, URL_CAP);
    r := GetString(sock, url);
    if r == -1 {
      return;
    }
    ghost var s1 := sock.unread;
    TakenFits(s1, NAME_CAP);
    r := GetString(sock, name);
    if r == -1 {
      return;
    }
    ghost var s2 := sock.unread;
    TakenFits(s2, ID_CAP);
    r := GetString(sock, id);
    if r == -1 {
      return;
    }
    ghost var s3 := sock.unread;
    TakenFits(s3, TYPE_CAP);
    r := GetString(sock, kind);
  }

  lemma NothingLeft()
    ensures TakeField([], URL_CAP) == TakeField([], NAME_CAP) == TakeField([], ID_CAP) == TakeField([], TYPE_CAP) == Short
  {
  }

  lemma TakenFits(s: seq<byte>, cap: nat)
    ensures TakeField(s, cap).Taken? ==> |TakeField(s, cap).text| <= cap
  {
  }

  /** `icon_name`: the identifier and the extension, appended to a zeroed buffer. */
  method BuildIconName(id: array<byte>) returns (iconName: array<byte>)
    requires id.Length == ID_CAP && 0 in id[..]
    ensures fresh(iconName) && iconName.Length == ICON_NAME_CAP
    ensures Holds(iconName[..], IconName(id[..]))
    ensures 0 in iconName[..] && CStr(iconName[..]) == IconName(id[..])
  {
    hide Overwrite, Holds, ICON_EXT;
    var text, ext := CStr(id[..]), ICON_EXT;
    ExtensionLength();
    iconName := new byte[ICON_NAME_CAP](_ => 0);
    ZerosHold(iconName[..]);
    HoldsReads(iconName[..], []);
    AppendString(iconName, id);
    AppendKeepsZeroTail(Zeros(ICON_NAME_CAP), [], text);
    assert [] + text == text;
    HoldsReads(iconName[..], text);
    var suffix := Literal(ext);
    ghost var before := iconName[..];
    AppendString(iconName, suffix);
    AppendKeepsZeroTail(before, text, ext);
    HoldsReads(iconName[..], text + ext);
  }

  lemma ExtensionLength()
    ensures |ICON_EXT| == 4 && 0 !in ICON_EXT && |ICON_DIR| == 15 && 0 !in ICON_DIR
  {
  }

  lemma ZerosHold(buf: seq<byte>)
    requires forall i :: 0 <= i < |buf| ==> buf[i] == 0
    ensures Holds(buf, []) && buf == Zeros(|buf|)
  {
  }

  /** An identifier that reaches `strlen` has its terminator. */
  lemma IdReady(body: seq<byte>)
    ensures IdTerminated(body) && ParseStrings(body).Strings? ==>
      |ParseStrings(body).id| <= ID_CAP && 0 in Buffered(ParseStrings(body).id, ID_CAP)
    ensures IdTerminated([]) && ParseBody([]).Truncated? && !ParseBody(body).Quit?
  {
    hide Buffered;
    NothingLeft();
  }

  /** What a message body does to the parameters and the file. */
  ghost predicate Received(body: seq<byte>, before: Params, r: int, after: Params, s: IconState)
  {
    match ParseBody(body)
    case Truncated => s.rest == []
    case Quit(_) => false
    case TooLong(rest) => r == -1 && s.rest == rest && after == before
    case Request(_, _, id, _, _, n, rest) =>
      && r == 0 && FitsHeader(ParseBody(body)) && 0 in Buffered(id, ID_CAP)
      && after == Filled(before, ParseBody(body))
      && (if n == 0 then NoIcon(rest, s) else IconSaved(rest, n, ICON_DIR + IconName(Buffered(id, ID_CAP)), s))
  }

  ghost function Snapshot(params: DownloadParams, sock: Socket, file: IconFile): IconState
    reads params, sock, file
  {
    IconState(sock.unread, sock.failed, params.iconPath, file.path, file.contents, file.failed)
  }

  lemma PathBuffered(stream: seq<byte>, announced: int, path: seq<byte>, s: IconState)
    ensures NoIcon(stream, s) ==> s.pathBuffer == Buffered([], |s.pathBuffer|)
    ensures IconSaved(stream, announced, path, s) ==>
      |path| <= |s.pathBuffer| && s.pathBuffer == Buffered(path, |s.pathBuffer|)
  {
  }

  /** A C array initialised with the empty string. */
  method ZeroBuffer(n: nat) returns (a: array<byte>)
    ensures fresh(a) && a.Length == n && a[..] == Zeros(n) && Holds(a[..], [])
  {
    a := new byte[n](_ => 0);
    ZerosHold(a[..]);
  }

  /** The part of `get_pkg_info` after the command word. */
  method GetPackage(params: DownloadParams, sock: Socket, file: IconFile) returns (r: int)
    requires file.path == None && file.contents == [] && !file.failed && !sock.failed
    requires IdTerminated(sock.unread)
    requires ParseBody(sock.unread).Request? ==> ParseBody(sock.unread).iconLength < 0x8000_0000
    modifies params, sock, file
    ensures -1 <= r <= 0
    ensures Received(old(sock.unread), old(params.View()), r, params.View(), Snapshot(params, sock, file))
  {
    hide Zeros, Buffered, FromLe, Holds, Copied, CStr, CLen, ICON_DIR, ICON_EXT, IdTerminated, ParseStrings,
         TakeField, Overwrite, IconSaved, NoIcon, IconName, Received, Filled, FitsHeader, ParseBody, DownloadParams.View;
    ghost var body, before := sock.unread, params.View();
    IdReady(body);
    SizeAndIcon(body);
    var url := ZeroBuffer(URL_CAP);
    var name := ZeroBuffer(NAME_CAP);
    var id := ZeroBuffer(ID_CAP);
    var iconPath := ZeroBuffer(ICON_PATH_CAP);
    var kind := ZeroBuffer(TYPE_CAP);
    r := ReadStrings(sock, url, name, id, kind);
    if r == -1 {
      Stopped(body, before, Snapshot(params, sock, file));
      return -1;
    }
    var size := GetUint64(sock);
    var iconName := BuildIconName(id);
    ExtensionLength();
    IconNameLength(id[..]);
    ghost var rest := sock.unread;
    r := GetFile(sock, iconPath, iconName, file);
    params.Fill(id, url, name, size, iconPath, kind);
    Assembled(body, size, rest, before, params.View(), Snapshot(params, sock, file));
    return 0;
  }

  /** What is read behind the strings: the size and, directly after it, the icon. */
  lemma SizeAndIcon(body: seq<byte>)
    ensures ParseBody(body).Request? <==> ParseStrings(body).Strings? && |ParseStrings(body).rest| >= 12
    ensures ParseBody(body).Request? ==>
      var rest := ParseStrings(body).rest;
      ParseBody(body).iconLength == FromLe(rest[8..][..4]) && ParseBody(body).rest == rest[8..][4..]
  {
    hide ParseStrings, FromLe;
    if ParseBody(body).Request? {
      TailSlices(ParseStrings(body).rest);
    }
  }

  lemma Stopped(body: seq<byte>, before: Params, s: IconState)
    requires match ParseStrings(body)
             case Cut => s.rest == []
             case Refused(rest) => s.rest == rest
             case Strings(_, _, _, _, _) => false
    ensures Received(body, before, -1, before, s)
  {
    hide ParseStrings;
  }

  /** The buffers, the size and the state after the icon are what the whole message means. */
  lemma Assembled(body: seq<byte>, size: nat, left: seq<byte>, before: Params, after: Params, s: IconState)
    requires match ParseStrings(body)
             case Cut => left == []
             case Refused(_) => false
             case Strings(url, name, id, kind, rest) =>
               && |url| <= URL_CAP && |name| <= NAME_CAP && |id| <= ID_CAP && |kind| <= TYPE_CAP
               && (|rest| >= 8 ==> size == FromLe(rest[..8]) && left == rest[8..])
               && (|rest| < 8 ==> left == [])
               && after == before.(id := Buffered(id, ID_CAP), contentUrl := Buffered(url, URL_CAP),
                    contentName := Buffered(name, NAME_CAP), packageType := Buffered(kind, TYPE_CAP),
                    iconPath := s.pathBuffer, packageSize := size)
               && 0 in after.id
    requires |s.pathBuffer| == ICON_PATH_CAP && (|left| < 4 ==> s.rest == [])
    requires |left| >= 4 && 0 in after.id ==>
      if FromLe(left[..4]) == 0 then NoIcon(left[4..], s)
      else IconSaved(left[4..], FromLe(left[..4]), ICON_DIR + IconName(after.id), s)
    ensures Received(body, before, 0, after, s)
  {
    hide ParseStrings, FromLe, Buffered, NoIcon, IconSaved, IconName, ICON_DIR;
    if ParseBody(body).Request? {
      SizeAndIcon(body);
      PathBuffered(left[4..], FromLe(left[..4]), ICON_DIR + IconName(after.id), s);
    }
  }

  lemma IconNameLength(id: seq<byte>)
    requires 0 in id
    ensures |IconName(id)| == CLen(id) + 4 && 0 !in IconName(id)
  {
  }

  lemma TailSlices(s: seq<byte>)
    ensures |s| >= 8 ==> |s[8..]| == |s| - 8
    ensures |s| >= 12 ==> s[8..][..4] == s[8..12] && s[8..][4..] == s[12..]
  {
  }

  /** Receives one request. Without a connection or with an over-long string the result is -1, for the
      quit command it is 1, and the parameters stay as they were. For a package it is 0, every
      variable parameter comes from this message, and the icon is saved under its path. */
  method GetPkgInfo(params: DownloadParams, sock: Socket?, file: IconFile) returns (r: int)
    requires file.path == None && file.contents == [] && !file.failed
    requires sock != null ==> !sock.failed && Admissible(sock.unread)
    modifies params, sock, file
    ensures sock == null ==> r == -1 && params.View() == old(params.View())
    ensures sock != null ==>
      match Parse(old(sock.unread))
      case Truncated => sock.unread == []
      case Quit(rest) => r == 1 && sock.unread == rest && params.View() == old(params.View())
      case _ => Received(old(sock.unread)[4..], old(params.View()), r, params.View(), Snapshot(params, sock, file))
  {
    hide FromLe, IdTerminated, ParseBody;
    if sock == null {
      return -1;
    }
    IdReady(sock.unread[if |sock.unread| < 4 then 0 else 4..]);
    var command := GetUint32(sock);
    if command == 0 {
      return 1;
    }
    r := GetPackage(params, sock, file);
  }
}