/** From the sender's package to the installer's parameters: the whole path of one message. */
module Delivery {
  import opened Bytes
  import opened CStrings
  import opened Wire
  import opened Receiver

  /** A sendable package whose strings leave room for their terminators and hold no NUL. */
  predicate Deliverable(p: Package)
  {
    && Sendable(p)
    && |p.url| < URL_CAP && |p.name| < NAME_CAP && |p.id| < ID_CAP && |p.kind| < TYPE_CAP
    && 0 !in p.url && 0 !in p.name && 0 !in p.id && 0 !in p.kind
  }

  /** With the buffers' sizes written out: exactly which packages are deliverable. */
  lemma DeliverableIff(p: Package)
    ensures Deliverable(p) <==>
      && Sendable(p) && |p.url| < 2048 && |p.name| < 601 && |p.id| < 48 && |p.kind| < 16
      && 0 !in p.url + p.name + p.id + p.kind
  {
  }

  /** The sizes of the buffers that the parameters point to. */
  lemma BufferSizes(before: Params, q: Parsed)
    requires q.Request? && FitsHeader(q) && 0 in Buffered(q.id, ID_CAP)
    requires |ICON_DIR| + |IconName(Buffered(q.id, ID_CAP))| <= ICON_PATH_CAP
    ensures var p := Filled(before, q);
            && |p.contentUrl| == 2048 && |p.contentName| == 601 && |p.id| == 48 && |p.packageType| == 16
            && |p.iconPath| == 2048
  {
  }

  /** The C string in `buf` is `text`. */
  predicate Reads(buf: seq<byte>, text: seq<byte>) { 0 in buf && CStr(buf) == text }

  function IconPath(p: Package): seq<byte>
  {
    if p.icon == [] then [] else ICON_DIR + (p.id + ICON_EXT)
  }

  /** The parameters carry the package. */
  predicate Carries(after: Params, p: Package)
  {
    && after.packageSize == p.size
    && Reads(after.contentUrl, p.url) && Reads(after.contentName, p.name)
    && Reads(after.id, p.id) && Reads(after.packageType, p.kind) && Reads(after.iconPath, IconPath(p))
  }

  lemma BodyParsed(p: Package, tail: seq<byte>)
    requires Deliverable(p)
    ensures ParseBody(Body(p) + tail) == Request(p.url, p.name, p.id, p.kind, p.size, |p.icon|, p.icon + tail)
    ensures var h := ParseStrings(Body(p) + tail);
            h.Strings? && h.id == p.id && IdField(Body(p) + tail).Taken? && IdField(Body(p) + tail).text == p.id
  {
    hide Body, TakeField;
    ParseBodyEncoded(p, tail);
  }

  lemma BuffersRead(p: Package)
    requires Deliverable(p)
    ensures Reads(Buffered(p.url, URL_CAP), p.url) && Reads(Buffered(p.name, NAME_CAP), p.name)
    ensures Reads(Buffered(p.id, ID_CAP), p.id) && Reads(Buffered(p.kind, TYPE_CAP), p.kind)
  {
    StringSurvivesIff(p.url, URL_CAP);
    StringSurvivesIff(p.name, NAME_CAP);
    StringSurvivesIff(p.id, ID_CAP);
    StringSurvivesIff(p.kind, TYPE_CAP);
  }

  /** The icon path fits its buffer with a terminator, and is empty exactly when there is no icon. */
  lemma IconPathFits(p: Package)
    requires Deliverable(p)
    ensures IconPath(p) == if |p.icon| == 0 then [] else Ascii("/user/data/tmp_") + p.id + Ascii(".png")
    ensures |IconPath(p)| <= 66 && 0 !in IconPath(p)
    ensures IconPath(p) == [] <==> p.icon == []
    ensures Reads(Buffered(IconPath(p), ICON_PATH_CAP), IconPath(p))
  {
    ExtensionLength();
    StringSurvivesIff(IconPath(p), ICON_PATH_CAP);
  }

  /** The receiver accepts every deliverable message. */
  lemma EncodedAdmissible(p: Package, tail: seq<byte>)
    requires Deliverable(p)
    ensures Admissible(Encode(p) + tail)
    ensures Parse(Encode(p) + tail).Request? && (Encode(p) + tail)[4..] == Body(p) + tail
  {
    hide Body, Le, FromLe, ParseBody, ParseStrings, IdField, Buffered;
    BodyParsed(p, tail);
    BuffersRead(p);
    EncodeSplits(p, tail);
    ParseEncoded(p, tail);
    assert (Encode(p) + tail)[4..] == Body(p) + tail;
  }

  /** Whatever is left after receiving a deliverable message, the parameters are exactly the sent
      package, and the icon file holds the icon: all of it when nothing failed, a prefix otherwise. */
  lemma DeliversPackage(p: Package, tail: seq<byte>, before: Params, r: int, after: Params, s: IconState)
    requires Deliverable(p) && Received(Body(p) + tail, before, r, after, s)
    ensures r == 0 && Carries(after, p)
    ensures (after.userId, after.entitlementType, after.option) == (before.userId, before.entitlementType, before.option)
    ensures p.icon == [] ==> s.path == None && s.rest == tail
    ensures p.icon != [] ==> (s.path == Some(IconPath(p)) || s.writeFailed) && s.contents <= p.icon
    ensures p.icon != [] && !s.readFailed && !s.writeFailed ==> s.contents == p.icon && s.rest == tail
  {
    hide Body, ParseBody, ParseStrings, IdField, Buffered, CStr, Holds, ICON_DIR, ICON_EXT;
    BodyParsed(p, tail);
    BuffersRead(p);
    IconPathFits(p);
    if p.icon != [] {
      var path := ICON_DIR + IconName(Buffered(p.id, ID_CAP));
      assert path == IconPath(p);
      IconConserved(p.icon, tail, path, s);
    }
  }

  lemma IconConserved(icon: seq<byte>, tail: seq<byte>, path: seq<byte>, s: IconState)
    requires icon != [] && IconSaved(icon + tail, |icon|, path, s)
    ensures s.contents <= icon
    ensures !s.readFailed && !s.writeFailed ==> s.contents == icon && s.rest == tail
  {
  }

  /** One exchange, from the sender's package to the receiver's parameters and icon file, under every way
      of cutting up the reads and writes of the icon. */
  method Exchange(p: Package, tail: seq<byte>, params: DownloadParams)
    returns (r: int, sock: Socket, icon: IconFile)
    requires Deliverable(p)
    modifies params
    ensures r == 0 && Carries(params.View(), p)
    ensures p.icon == [] ==> icon.path == None && sock.unread == tail
    ensures p.icon != [] ==> icon.contents <= p.icon && (icon.path == Some(IconPath(p)) || icon.failed)
    ensures p.icon != [] && !sock.failed && !icon.failed ==> icon.contents == p.icon && sock.unread == tail
  {
    hide Body, Encode, Admissible, Parse, Received, Carries, Deliverable, IconPath;
    ghost var before := params.View();
    EncodedAdmissible(p, tail);
    sock := new Socket(Encode(p) + tail);
    icon := new IconFile();
    r := GetPkgInfo(params, sock, icon);
    DeliversPackage(p, tail, before, r, params.View(), Snapshot(params, sock, icon));
  }
}
