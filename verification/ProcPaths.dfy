/** The paths the stage-0 kernel knows: what `openat` and `fstatat64` make of them. */
module ProcPaths {
  import opened Bytes
  import opened Machine
  import opened UserMemory
  import opened ProcFs

  const REG_MODE: Word := 0x81A4
  const DIR_MODE: Word := 0x41ED
  const LINK_MODE: Word := 0xA1ED

  /** The file behind each identifier; 0 is none. */
  function FilePath(id: nat): seq<byte> {
    match id
    case 1 => Lit("/proc/version")
    case 2 => Lit("/proc/cpuinfo")
    case 3 => Lit("/proc/meminfo")
    case 4 => Lit("/proc/caribeos")
    case 5 => Lit("/proc/uptime")
    case 6 => Lit("/proc/stat")
    case _ => []
  }

  function FileIno(id: nat): Word {
    match id
    case 4 => 11
    case 3 => 10
    case 5 => 12
    case 6 => 13
    case 2 => 9
    case _ => 8
  }

  /** The file a path names, 0 for none: the comparisons in the order the kernel makes them. */
  ghost function FileOf(mem: seq<byte>, a: Word): (id: nat)
    requires |mem| == TWO32
    ensures id <= 6 && (id != 0 ==> StringIs(mem, a, FilePath(id)))
  {
    if StringIs(mem, a, FilePath(1)) then 1
    else if StringIs(mem, a, FilePath(2)) then 2
    else if StringIs(mem, a, FilePath(3)) then 3
    else if StringIs(mem, a, FilePath(5)) then 5
    else if StringIs(mem, a, FilePath(6)) then 6
    else if StringIs(mem, a, FilePath(4)) then 4
    else 0
  }

  datatype Target = AFile(id: nat) | ADir | Nothing

  ghost function OpenTarget(mem: seq<byte>, a: Word): (t: Target)
    requires |mem| == TWO32
    ensures t.AFile? ==> 1 <= t.id <= 6
  {
    if a == 0 then Nothing
    else if FileOf(mem, a) != 0 then AFile(FileOf(mem, a))
    else if StringIs(mem, a, Lit("/proc")) then ADir
    else Nothing
  }

  datatype Meta = Meta(mode: Word, size: Word, ino: Word)

  lemma PlainPath(id: nat)
    ensures |FilePath(id)| <= 128 && 0 !in FilePath(id)
  {
  }

  lemma PlainOthers()
    ensures 0 !in Lit("/") && 0 !in Lit("/proc") && 0 !in Lit("/proc/self") && 0 !in Lit("/proc/self/exe")
    ensures 0 !in Lit("/kernel.elf")
  {
  }

  /** What `linux_path_metadata` knows of a path. */
  ghost function PathMeta(mem: seq<byte>, a: Word, contents: seq<seq<byte>>, kernelSize: Word): Option<Meta>
    requires |mem| == TWO32 && ContentsOk(contents)
  {
    if StringIs(mem, a, Lit("/")) || StringIs(mem, a, Lit("/proc")) || StringIs(mem, a, Lit("/proc/self"))
        then Some(Meta(DIR_MODE, 0, 5))
    else if StringIs(mem, a, Lit("/proc/self/exe")) then Some(Meta(LINK_MODE, 11, 7))
    else if FileOf(mem, a) != 0 then Some(FileMeta(contents, FileOf(mem, a)))
    else if StringIs(mem, a, Lit("/kernel.elf")) then Some(Meta(REG_MODE, kernelSize, 17))
    else None
  }

  /** The read-only contents of the six files, slot 0 empty. */
  predicate ContentsOk(contents: seq<seq<byte>>) {
    |contents| == 7 && contents[0] == [] && forall i :: 0 <= i < 7 ==> |contents[i]| < 0x8000_0000
  }

  function FileMeta(contents: seq<seq<byte>>, id: nat): Meta
    requires ContentsOk(contents) && id < 7
  {
    Meta(REG_MODE, |contents[id]|, FileIno(id))
  }

  lemma FileNotOther(mem: seq<byte>, a: Word, id: nat, other: seq<byte>)
    requires |mem| == TWO32 && StringIs(mem, a, FilePath(id)) && 0 !in other && other != FilePath(id)
    ensures !StringIs(mem, a, other)
  {
    hide StringIs, FilePath;
    PlainPath(id);
    if StringIs(mem, a, other) {
      SameText(mem, a, FilePath(id), other);
    }
  }

  lemma PathsApart(id: nat)
    requires 1 <= id <= 6
    ensures FilePath(id) != Lit("/") && FilePath(id) != Lit("/proc") && FilePath(id) != Lit("/proc/self")
    ensures FilePath(id) != Lit("/proc/self/exe")
  {
    assert FilePath(6)[7] == 116 && Lit("/proc/self")[7] == 101;
    assert FilePath(4)[6] == 99 && Lit("/proc/self/exe")[6] == 115;
  }

  /** Opening a path and asking for its metadata agree: the same file, and its size. */
  lemma OpenMeta(mem: seq<byte>, a: Word, contents: seq<seq<byte>>, kernelSize: Word)
    requires |mem| == TWO32 && ContentsOk(contents)
    ensures var t := OpenTarget(mem, a);
            && (t.AFile? ==> PathMeta(mem, a, contents, kernelSize) == Some(FileMeta(contents, t.id)))
            && (t.ADir? ==> PathMeta(mem, a, contents, kernelSize) == Some(Meta(DIR_MODE, 0, 5)))
  {
    hide StringIs, FilePath;
    var t := OpenTarget(mem, a);
    if t.AFile? {
      PlainOthers();
      PathsApart(t.id);
      FileNotOther(mem, a, t.id, Lit("/"));
      FileNotOther(mem, a, t.id, Lit("/proc"));
      FileNotOther(mem, a, t.id, Lit("/proc/self"));
      FileNotOther(mem, a, t.id, Lit("/proc/self/exe"));
    }
  }

  function StatOf(m: Meta): seq<byte> {
    StatBytes(m.mode, m.size, m.ino)
  }

  /** The size `fstat64` reports for an open file is its whole length, which is what reads add up to, and what
      `fstatat64` reports for its path. */
  lemma SizesAgree(mem: seq<byte>, path: Word, contents: seq<seq<byte>>, kernelSize: Word)
    requires |mem| == TWO32 && ContentsOk(contents) && OpenTarget(mem, path).AFile?
    ensures var id := OpenTarget(mem, path).id;
            && PathMeta(mem, path, contents, kernelSize).Some?
            && StatOf(PathMeta(mem, path, contents, kernelSize).value) == StatOf(FileMeta(contents, id))
            && Le32(StatOf(FileMeta(contents, id)), SIZE_OFF) == |contents[id]|
  {
    hide StringIs, FilePath, StatBytes, Le32;
    OpenMeta(mem, path, contents, kernelSize);
    var id := OpenTarget(mem, path).id;
    StatFields(REG_MODE, |contents[id]|, FileIno(id));
  }

  // ---------- the directory and the paths ----------

  lemma LitJoin(a: string, b: string, ab: string)
    requires a + b == ab
    ensures Lit(a) + Lit(b) == Lit(ab)
  {
  }

  /** The path of a directory entry. */
  function EntryPath(name: seq<byte>): seq<byte> {
    Lit("/proc/") + name
  }

  /** The identifier of the file listed at a place of the directory. */
  function ListedFile(i: nat): nat {
    match i
    case 3 => 2
    case 4 => 3
    case 5 => 4
    case 6 => 1
    case 7 => 5
    case 8 => 6
    case _ => 0
  }

  lemma ListedPath(i: nat)
    requires 3 <= i < 9
    ensures EntryPath(Table()[i].name) == FilePath(ListedFile(i)) && Table()[i].ino == FileIno(ListedFile(i))
  {
    match i
    case 3 => LitJoin("/proc/", "cpuinfo", "/proc/cpuinfo");
    case 4 => LitJoin("/proc/", "meminfo", "/proc/meminfo");
    case 5 => LitJoin("/proc/", "caribeos", "/proc/caribeos");
    case 6 => LitJoin("/proc/", "version", "/proc/version");
    case 7 => LitJoin("/proc/", "uptime", "/proc/uptime");
    case 8 => LitJoin("/proc/", "stat", "/proc/stat");
  }

  lemma FileOfPath(mem: seq<byte>, a: Word, id: nat)
    requires |mem| == TWO32 && 1 <= id <= 6 && StringIs(mem, a, FilePath(id))
    ensures FileOf(mem, a) == id
  {
    hide StringIs, FilePath;
    forall k | 1 <= k <= 6 && k != id ensures !StringIs(mem, a, FilePath(k)) {
      FilesApart(id, k);
      PlainPath(k);
      FileNotOther(mem, a, id, FilePath(k));
    }
  }

  lemma FilesApart(id: nat, k: nat)
    requires 1 <= id <= 6 && 1 <= k <= 6 && id != k
    ensures FilePath(id) != FilePath(k)
  {
    LastBytes(id);
    LastBytes(k);
  }

  /** Length and seventh byte tell the six paths apart. */
  lemma LastBytes(id: nat)
    requires 1 <= id <= 6
    ensures var p := FilePath(id);
            && 6 < |p|
            && (|p|, p[6]) == [(13, 118), (13, 99), (13, 109), (14, 99), (12, 117), (10, 115)][id - 1]
  {
  }

  /** Every regular entry of the directory can be opened under its name, and the inode the listing gives for it is the
      one both metadata calls report. */
  lemma ListedOpens(mem: seq<byte>, a: Word, i: nat, contents: seq<seq<byte>>, kernelSize: Word)
    requires |mem| == TWO32 && ContentsOk(contents) && a != 0 && i < 9 && Table()[i].kind == 8
    requires StringIs(mem, a, EntryPath(Table()[i].name))
    ensures OpenTarget(mem, a).AFile? && FileMeta(contents, OpenTarget(mem, a).id).ino == Table()[i].ino
    ensures PathMeta(mem, a, contents, kernelSize) == Some(FileMeta(contents, OpenTarget(mem, a).id))
    ensures FileMeta(contents, OpenTarget(mem, a).id).mode == 0x81A4
  {
    hide StringIs, FilePath, EntryPath;
    RegularEntries(i);
    ListedPath(i);
    FileOfPath(mem, a, ListedFile(i));
    OpenMeta(mem, a, contents, kernelSize);
  }

  lemma RegularEntries(i: nat)
    requires i < 9
    ensures Table()[i].kind == if 3 <= i then 8 else 4
  {
  }

  lemma SelfPath()
    ensures EntryPath(Table()[2].name) == Lit("/proc/self") && Table()[2].ino == 6 && Table()[2].kind == 4
  {
    LitJoin("/proc/", "self", "/proc/self");
  }

  /** The one entry that can be looked up and disagrees: /proc/self is listed with inode 6 and reported with inode 5,
      and it cannot be opened. */
  lemma SelfDiffers(mem: seq<byte>, a: Word, contents: seq<seq<byte>>, kernelSize: Word)
    requires |mem| == TWO32 && ContentsOk(contents) && StringIs(mem, a, EntryPath(Table()[2].name))
    ensures Table()[2].ino == 6 && OpenTarget(mem, a) == Nothing
    ensures PathMeta(mem, a, contents, kernelSize) == Some(Meta(0x41ED, 0, 5))
  {
    hide StringIs, FilePath, EntryPath;
    SelfPath();
    NotAFile(mem, a, Lit("/proc/self"));
    PlainOthers();
    if StringIs(mem, a, Lit("/proc")) {
      SameText(mem, a, Lit("/proc"), Lit("/proc/self"));
    }
  }

  lemma NotAFile(mem: seq<byte>, a: Word, text: seq<byte>)
    requires |mem| == TWO32 && StringIs(mem, a, text) && 0 !in text && text == Lit("/proc/self")
    ensures FileOf(mem, a) == 0
  {
    hide StringIs, FilePath;
    var id := FileOf(mem, a);
    if id != 0 {
      PathsApart(id);
      FileNotOther(mem, a, id, text);
    }
  }

  /** The link to the running program is as long as the path it leads to. */
  lemma ExeLink(mem: seq<byte>, a: Word, contents: seq<seq<byte>>, kernelSize: Word)
    requires |mem| == TWO32 && ContentsOk(contents) && StringIs(mem, a, Lit("/proc/self/exe"))
    ensures PathMeta(mem, a, contents, kernelSize) == Some(Meta(0xA1ED, |Lit("/kernel.elf")|, 7))
  {
    hide StringIs, FilePath;
    PlainOthers();
    OtherText(mem, a, Lit("/"), Lit("/proc/self/exe"));
    OtherText(mem, a, Lit("/proc"), Lit("/proc/self/exe"));
    OtherText(mem, a, Lit("/proc/self"), Lit("/proc/self/exe"));
  }

  lemma OtherText(mem: seq<byte>, a: Word, other: seq<byte>, text: seq<byte>)
    requires |mem| == TWO32 && StringIs(mem, a, text) && 0 !in text && 0 !in other && |other| != |text|
    ensures !StringIs(mem, a, other)
  {
    hide StringIs;
    if StringIs(mem, a, other) {
      SameText(mem, a, other, text);
    }
  }

  /** The six texts by name. */
  datatype Texts = Texts(version: seq<byte>, cpuinfo: seq<byte>, meminfo: seq<byte>, caribeos: seq<byte>,
                         uptime: seq<byte>, stat: seq<byte>)

  /** The texts in the order of the identifiers. */
  function InOrder(t: Texts): seq<seq<byte>> {
    [[], t.version, t.cpuinfo, t.meminfo, t.caribeos, t.uptime, t.stat]
  }

  /** A path leads to the text of that name. */
  lemma PathText(mem: seq<byte>, a: Word, t: Texts)
    requires |mem| == TWO32 && a != 0 && ContentsOk(InOrder(t))
    ensures var target := OpenTarget(mem, a);
            && (StringIs(mem, a, Lit("/proc/version")) ==> target.AFile? && InOrder(t)[target.id] == t.version)
            && (StringIs(mem, a, Lit("/proc/cpuinfo")) ==> target.AFile? && InOrder(t)[target.id] == t.cpuinfo)
            && (StringIs(mem, a, Lit("/proc/meminfo")) ==> target.AFile? && InOrder(t)[target.id] == t.meminfo)
            && (StringIs(mem, a, Lit("/proc/caribeos")) ==> target.AFile? && InOrder(t)[target.id] == t.caribeos)
            && (StringIs(mem, a, Lit("/proc/uptime")) ==> target.AFile? && InOrder(t)[target.id] == t.uptime)
            && (StringIs(mem, a, Lit("/proc/stat")) ==> target.AFile? && InOrder(t)[target.id] == t.stat)
  {
    hide StringIs, OpenTarget, FileOf, ContentsOk;
    TextAt(mem, a, 1);
    TextAt(mem, a, 2);
    TextAt(mem, a, 3);
    TextAt(mem, a, 4);
    TextAt(mem, a, 5);
    TextAt(mem, a, 6);
  }

  lemma TextAt(mem: seq<byte>, a: Word, id: nat)
    requires |mem| == TWO32 && a != 0 && 1 <= id <= 6
    ensures StringIs(mem, a, FilePath(id)) ==> OpenTarget(mem, a) == AFile(id)
  {
    hide StringIs, FilePath;
    if StringIs(mem, a, FilePath(id)) {
      FileOfPath(mem, a, id);
    }
  }
}
