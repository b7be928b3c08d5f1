/** The stage-0 kernel's Linux personality: the dispatcher and its calls, over memory updated in place. */
module Stage0 {
  import opened Bytes
  import opened Machine
  import opened UserMemory
  import opened KernelWords
  import opened ProcFs
  import opened ProcPaths
  import opened Stage0Calls
  import opened Stage0Traps
  import Sv32

  /** Two mappings of one history share no byte, and every byte of each is one U-mode can reach through the stage-0
      table. */
  lemma MappingsApartAndReachable(maps: seq<Mapping>, next: Word, i: nat, j: nat, p: Word,
                                  start: Word, end: Word, bases: seq<Word>)
    requires MapsOk(maps, next) && i < |maps| && j < |maps| && i != j
    requires maps[i].start <= p < maps[i].start + maps[i].len
    requires start % Sv32.SUPER == 0 && start <= USER_BASE < end
    requires Sv32.Device(bases, p).None?
    ensures !(maps[j].start <= p < maps[j].start + maps[j].len)
    ensures var t := Sv32.Walk(Sv32.PutIos(Sv32.RamTable(start, end, true), bases), p); t.Leaf? && t.u
  {
    assert maps[i] in maps && InWindow(maps[i]);
    assert i < j ==> maps[i].start + maps[i].len <= maps[j].start;
    assert j < i ==> maps[j].start + maps[j].len <= maps[i].start;
    Sv32.UserWindow(start, end, bases, p);
  }

  class Kernel {
    var mem: seq<byte>
    const env: Env

    /** The histories of the specification. */
    ghost var maps: seq<Mapping>
    ghost var delivered: seq<byte>
    ghost var listed: seq<Dirent>

    ghost function View(): State
      reads this
    {
      State(mem, maps, delivered, listed)
    }

    ghost predicate Ready()
      reads this
    {
      Shape(env, View())
    }

    constructor (mem0: seq<byte>, env0: Env)
      requires EnvOk(env0) && |mem0| == TWO32
      ensures env == env0 && Valid(env, View()) && maps == [] && UserEq(env.layout, mem, mem0)
      ensures WordsOf(env, View())[..FRAME] == [MMAP_BASE, 0, 0, 0, 0, 0]
    {
      hide Booted, Words, LayoutOk, ContentsOk, MapsOk, FileOk, DirOk, UserEq;
      env := env0;
      maps, delivered, listed := [], [], [];
      mem := Booted(env0.layout, mem0);
      BootedLaw(env0, mem0);
    }

    function Get(k: nat): (v: Word)
      requires Ready() && k < WORDS
      reads this
      ensures v == WordsOf(env, View())[k]
    {
      WordAt(env.layout, mem, k)
    }

    method Set(k: nat, v: Word)
      requires Ready() && k < WORDS
      modifies `mem
      ensures Ready() && mem == SetWord(env.layout, old(mem), k, v)
    {
      mem := SetWord(env.layout, mem, k, v);
    }

    /** mmap. */
    method Mmap(length: Word) returns (ret: Word)
      requires Ready()
      modifies this
      ensures Out(ret, View()) == MmapCall(env, old(View()), length)
      ensures old(Valid(env, View())) ==> Valid(env, View())
    {
      hide Put, ContentsOk, Table, LayoutOk, MapsOk, FileOk, DirOk, Words, SetWord;
      if Valid(env, View()) {
        MmapLaw(env, View(), length);
      }
      var len := PageUp(length);
      ret := Errno(ENOMEM);
      if len != 0 && len <= Wrap(MMAP_LIMIT - Get(NEXT)) {
        ret := Get(NEXT);
        Set(NEXT, Wrap(Get(NEXT) + len));
        mem := ZeroOut(mem, ret, len);
        maps := maps + [Mapping(ret, len)];
      }
    }

    /** openat: each open starts its cursor at zero. */
    method OpenAt(path: Word) returns (ret: Word)
      requires Ready()
      modifies this
      ensures Out(ret, View()) == OpenCall(env, old(View()), path)
      ensures old(Valid(env, View())) ==> Valid(env, View())
    {
      hide StringIs, FilePath, ContentsOk, LayoutOk, MapsOk, FileOk, DirOk, Words, SetWord, Table;
      ret := Errno(ENOENT);
      if path == 0 {
        return;
      }
      var id := FindFile(path);
      if id != 0 {
        SetFileLaw(env, View(), 1, id);
        Set(OPEN, 1);
        Set(OFFSET, 0);
        Set(FILE, id);
        delivered := [];
        ret := PROC_FD;
        return;
      }
      PlainOthers();
      var dir := UserStrEq(mem, path, Lit("/proc"));
      if dir {
        SetDirLaw(env, View(), 1);
        Set(DIR_OPEN, 1);
        Set(DIR_OFFSET, 0);
        listed := [];
        ret := DIR_FD;
      }
    }

    /** The chain of comparisons against the six file paths. */
    method FindFile(path: Word) returns (id: nat)
      requires |mem| == TWO32
      ensures id == FileOf(mem, path)
    {
      hide StringIs, FilePath;
      var eq := PathIs(path, 1);
      if eq {
        return 1;
      }
      eq := PathIs(path, 2);
      if eq {
        return 2;
      }
      eq := PathIs(path, 3);
      if eq {
        return 3;
      }
      eq := PathIs(path, 5);
      if eq {
        return 5;
      }
      eq := PathIs(path, 6);
      if eq {
        return 6;
      }
      eq := PathIs(path, 4);
      return if eq then 4 else 0;
    }

    method PathIs(path: Word, id: nat) returns (eq: bool)
      requires |mem| == TWO32
      ensures eq <==> StringIs(mem, path, FilePath(id))
    {
      PlainPath(id);
      eq := UserStrEq(mem, path, FilePath(id));
    }

    /** read. */
    method Read(fd: Word, buf: Word, count: Word) returns (ret: Word)
      requires Ready()
      modifies this
      ensures Out(ret, View()) == ReadCall(env, old(View()), fd, buf, count)
    {
      hide Put, LayoutOk, MapsOk, FileOk, DirOk, Words, SetWord, Table;
      ret := Errno(EBADF);
      if fd == PROC_FD && Get(OPEN) != 0 && buf != 0 {
        var content, from := Content(env, Get(FILE)), Get(OFFSET);
        var left := if from < |content| then |content| - from else 0;
        var n := count;
        if n > left {
          n := left;
        }
        var data := if n == 0 then [] else content[from..from + n];
        assert data == ReadData(env, WordsOf(env, View()), count);
        mem := CopyOut(mem, buf, data);
        Set(OFFSET, Wrap(Get(OFFSET) + n));
        delivered := delivered + data;
        ret := n;
      }
    }

    /** close: the descriptor's own words go back to zero, the other's stay. */
    method Close(fd: Word) returns (ret: Word)
      requires Ready()
      modifies this
      ensures Out(ret, View()) == CloseCall(env, old(View()), fd)
      ensures Closed(env, old(View()), fd, Out(ret, View()))
      ensures old(Valid(env, View())) ==> Valid(env, View())
    {
      hide LayoutOk, MapsOk, FileOk, DirOk, Words, SetWord, Table, ContentsOk, Closed, Valid;
      CloseLaw(env, View(), fd);
      ret := Errno(EBADF);
      if fd == PROC_FD && Get(OPEN) != 0 {
        Set(OPEN, 0);
        Set(OFFSET, 0);
        Set(FILE, 0);
        delivered := [];
        ret := 0;
      } else if fd == DIR_FD && Get(DIR_OPEN) != 0 {
        Set(DIR_OPEN, 0);
        Set(DIR_OFFSET, 0);
        listed := [];
        ret := 0;
      }
    }

    /** getdents64. */
    method Getdents(fd: Word, buf: Word, count: Word) returns (ret: Word)
      requires Ready()
      modifies this
      ensures Out(ret, View()) == DentsCall(env, old(View()), fd, buf, count)
    {
      hide Put, LayoutOk, MapsOk, FileOk, DirOk, Words, SetWord, Table, ContentsOk, RecLen, Record;
      ret := Errno(EBADF);
      if fd == DIR_FD && Get(DIR_OPEN) != 0 && buf != 0 {
        var total := 0;
        while Get(DIR_OFFSET) < 9
          invariant Ready() && 0 <= total <= count
          invariant Dents(env, View(), buf, count, total) == Dents(env, old(View()), buf, count, 0)
          decreases count - total
        {
          var d := Table()[Get(DIR_OFFSET)];
          var reclen := RecLen(d.name);
          if reclen > count - total {
            break;
          }
          var len;
          mem, len := CopyoutDirent(mem, Wrap(buf + total), d);
          Set(DIR_OFFSET, Wrap(Get(DIR_OFFSET) + 1));
          listed := listed + [d];
          total := total + reclen;
        }
        ret := total;
      } else if buf == 0 {
        ret := Errno(EFAULT);
      }
    }

    /** fstat64 on the open file or directory. */
    method Fstat(fd: Word, buf: Word) returns (ret: Word)
      requires Ready()
      modifies this
      ensures Out(ret, View()) == FstatCall(env, old(View()), fd, buf)
    {
      hide Put, LayoutOk, MapsOk, FileOk, DirOk, Words, Table, StatBytes, ContentsOk;
      ret := Errno(EBADF);
      if buf == 0 {
        ret := Errno(EFAULT);
      } else if fd == PROC_FD && Get(OPEN) != 0 {
        mem := CopyoutStat(mem, buf, REG_MODE, |Content(env, Get(FILE))|, FileIno(Get(FILE)));
        ret := 0;
      } else if fd == DIR_FD && Get(DIR_OPEN) != 0 {
        mem := CopyoutStat(mem, buf, DIR_MODE, 0, 5);
        ret := 0;
      }
    }

    /** fstatat64 on a path. */
    method FstatAt(path: Word, buf: Word) returns (ret: Word)
      requires Ready()
      modifies this
      ensures Out(ret, View()) == FstatAtCall(env, old(View()), path, buf)
    {
      hide Put, LayoutOk, MapsOk, Table, StatBytes, StringIs, FilePath, ContentsOk;
      if buf == 0 {
        return Errno(EFAULT);
      }
      if path != 0 {
        var meta := Metadata(path);
        if meta.Some? {
          mem := CopyoutStat(mem, buf, meta.value.mode, meta.value.size, meta.value.ino);
          return 0;
        }
      }
      return Errno(ENOENT);
    }

    /** `linux_path_metadata`. */
    method Metadata(path: Word) returns (meta: Option<Meta>)
      requires Ready() && path != 0
      ensures meta == PathMeta(mem, path, env.contents, env.kernelSize)
    {
      hide StringIs, FilePath, MapsOk, Table, LayoutOk;
      PlainOthers();
      var root := UserStrEq(mem, path, Lit("/"));
      var proc := UserStrEq(mem, path, Lit("/proc"));
      var self := UserStrEq(mem, path, Lit("/proc/self"));
      if root || proc || self {
        return Some(Meta(DIR_MODE, 0, 5));
      }
      var exe := UserStrEq(mem, path, Lit("/proc/self/exe"));
      if exe {
        return Some(Meta(LINK_MODE, 11, 7));
      }
      var id := FindFile(path);
      if id != 0 {
        return Some(FileMeta(env.contents, id));
      }
      var elf := UserStrEq(mem, path, Lit("/kernel.elf"));
      return if elf then Some(Meta(REG_MODE, env.kernelSize, 17)) else None;
    }

    /** The stores of a passive call. */
    method StoreAll(bs: seq<Block>)
      requires Ready() && BlocksOk(bs)
      modifies `mem
      ensures mem == PutAll(old(mem), bs)
    {
      hide Put, LayoutOk;
      for i := 0 to |bs|
        invariant |mem| == TWO32 && PutAll(mem, bs[i..]) == PutAll(old(mem), bs)
      {
        assert bs[i] in bs && bs[i..][1..] == bs[i + 1..];
        mem := CopyOut(mem, bs[i].at, bs[i].data);
      }
      assert bs[|bs|..] == [];
    }

    /** `xnu_stage0_user_trap_dispatch` on the frame the trap entry saved. */
    method Dispatch(other: Effect) returns (back: bool)
      requires Ready() && EffectOk(FrameAt(WordsOf(env, View())), other)
      modifies this
      ensures Ready() && back == Returns(old(FrameAt(WordsOf(env, View()))))
      ensures if back then Dispatched(env, old(View()), other) == Some(View()) else View() == old(View())
    {
      hide MapsOk, ContentsOk, Table, Put, Passive, OpenCall, CloseCall, MmapCall, DentsCall, ReadCall, FstatCall;
      hide FstatAtCall, LayoutOk, Words, SetWord, EffectOk, PutAll, EffectBlocks;
      var f := SavedFrame();
      if !Returns(f) {
        return false;
      }
      var ret: Word := other.ret;
      if f.a7 == SYS_MMAP {
        ret := Mmap(f.a1);
      } else if f.a7 == SYS_OPENAT {
        ret := OpenAt(f.a1);
      } else if f.a7 == SYS_GETDENTS64 {
        ret := Getdents(f.a0, f.a1, f.a2);
      } else if f.a7 == SYS_FSTAT64 {
        ret := Fstat(f.a0, f.a1);
      } else if f.a7 == SYS_FSTATAT64 {
        ret := FstatAt(f.a1, f.a2);
      } else if f.a7 == SYS_READ {
        ret := Read(f.a0, f.a1, f.a2);
      } else if f.a7 == SYS_CLOSE {
        ret := Close(f.a0);
      } else {
        StoreAll(EffectBlocks(f, other));
      }
      Set(A0, ret);
      Set(SEPC, Wrap(Get(SEPC) + 4));
      return true;
    }

    method SavedFrame() returns (f: Frame)
      requires Ready()
      ensures f == FrameAt(WordsOf(env, View()))
    {
      hide LayoutOk, ContentsOk;
      f := Frame(Get(6), Get(7), Get(8), Get(9), Get(10), Get(11), Get(12), Get(13), Get(14), Get(15), Get(16), Get(17),
                 Get(18), Get(19), Get(20), Get(21), Get(22), Get(23), Get(24), Get(25));
    }

    /** The trap entry: the program has run, and its registers are saved. */
    method Save(t: Trap)
      requires Ready() && TrapOk(t)
      modifies `mem
      ensures View() == Enter(env, old(View()), t)
    {
      hide Put, LayoutOk, ContentsOk, SetWord, FrameWords, EffectOk;
      mem := CopyOut(mem, USER_BASE, t.user);
      ghost var m := mem;
      var w := FrameWords(t.frame);
      for i := 0 to WORDS - FRAME
        invariant Ready() && mem == StoreFrame(env.layout, m, w, i)
      {
        Set(FRAME + i, w[i]);
      }
    }

    /** Any run of traps. When its stores miss the kernel's words the invariant holds throughout and what was mapped
        stays mapped. */
    method Serve(traps: seq<Trap>) returns (served: nat)
      requires Ready() && forall t :: t in traps ==> TrapOk(t)
      modifies this
      ensures Ready() && View() == Run(env, old(View()), traps)
      ensures served <= |traps| && (forall i :: 0 <= i < served ==> Returns(traps[i].frame))
      ensures served < |traps| ==> !Returns(traps[served].frame)
      ensures old(Valid(env, View())) && RunMisses(env, old(View()), traps) ==>
                Valid(env, View()) && old(maps) <= maps
    {
      hide Put, LayoutOk, ContentsOk, SetWord, EffectOk, MapsOk, FileOk, DirOk, Table, Words, Returns, Enter,
           Dispatched, Run, RunMisses, Step;
      if Valid(env, View()) && RunMisses(env, View(), traps) {
        RunLaw(env, View(), traps);
      }
      served := 0;
      assert traps[0..] == traps;
      while served < |traps|
        invariant Ready() && served <= |traps|
        invariant Run(env, View(), traps[served..]) == Run(env, old(View()), traps)
        invariant forall i :: 0 <= i < served ==> Returns(traps[i].frame)
      {
        var t := traps[served];
        assert t in traps;
        EnterLaw(env, View(), t);
        RunStep(env, View(), traps, served);
        StepIs(env, View(), t);
        Save(t);
        var back := Dispatch(t.effect);
        if !back {
          return;
        }
        served := served + 1;
      }
      RunNone(env, View(), traps);
    }
  }
}
