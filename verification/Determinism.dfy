/** The simple file system leaves nothing open but the bytes that a write uncovers in the blocks it links. */
module Determinism {
  import opened Bytes
  import opened Layout
  import opened Volumes
  import opened Space
  import opened Contents
  import opened Entries
  import opened Trees
  import opened Paths
  import opened FileOps
  import opened Directories
  import opened Steps
  import opened Laws
  import opened Holes

  /** Two states that differ in nothing but the bytes of files. */
  ghost predicate SameButBytes(a: Abs, b: Abs) {
    a.tree == b.tree && a.fds == b.fds && a.named == b.named && a.free == b.free && a.files.Keys == b.files.Keys
  }

  lemma OneNextInode(tr: Tree, r: int, s: int)
    requires NextInode(tr, r) && NextInode(tr, s)
    ensures r == s
  {
  }

  lemma NextInodeIsFree(tr: Tree, r: int)
    requires NextInode(tr, r)
    ensures 2 <= r < TOTAL_INODES && r !in tr.kind
  {
  }

  lemma CreateIsDetermined(a: Abs, start: nat, path: Str, permitted: bool, r: int, a': Abs, s: int, b': Abs)
    requires CreateStep(a, start, path, permitted, r, a') && CreateStep(a, start, path, permitted, s, b')
    ensures r == s && a' == b'
  {
    hide CreateTarget, AddNode, NextInode;
    if r != -1 {
      NextInodeIsFree(a.tree, r);
      if s != -1 {
        OneNextInode(a.tree, r, s);
      }
    }
    if s != -1 {
      NextInodeIsFree(a.tree, s);
    }
  }

  lemma OpenIsDetermined(a: Abs, start: nat, path: Str, mode: Access, permitted: bool, r: int, a': Abs, s: int, b': Abs)
    requires OpenStep(a, start, path, mode, permitted, r, a') && OpenStep(a, start, path, mode, permitted, s, b')
    ensures r == s && a' == b'
  {
    hide OpenTarget;
  }

  lemma MkdirIsDetermined(a: Abs, path: Str, permitted: bool, st: Status, a': Abs, su: Status, b': Abs)
    requires path != [] && MkdirStep(a, path, permitted, st, a') && MkdirStep(a, path, permitted, su, b')
    ensures st == su && a' == b'
  {
    hide MkdirCheck, AddNode, NextInode;
    var (check, dir, name) := MkdirCheck(a.tree, path, permitted);
    if check == Done && a.free != 0 && exists i :: 1 <= i < TOTAL_INODES && i !in a.tree.kind {
      var made: nat :| MadeDir(a, dir, name, made, a');
      var other: nat :| MadeDir(a, dir, name, other, b');
      OneNextInode(a.tree, made, other);
    }
  }

  lemma FuseWriteIsDetermined(a: Abs, path: Str, off: nat, data: seq<byte>, permitted: bool,
                              st: Status, r: int, a': Abs, su: Status, s: int, b': Abs)
    requires UpClosed(a.named)
    requires FuseWriteStep(a, path, off, data, permitted, st, r, a')
    requires FuseWriteStep(a, path, off, data, permitted, su, s, b')
    ensures st == su && r == s && SameButBytes(a', b')
    ensures var (check, i) := FuseOpenCheck(a.tree, path, permitted);
            (check == Done ==> i in a.files && Solid(a, i) && off <= |a.files[i]|) ==> a' == b'
  {
    hide Fitting, Mapping, Stored, Kept, FuseOpenCheck, Solid, WriteBytes, UpClosed, BackAt;
    var (check, i) := FuseOpenCheck(a.tree, path, permitted);
    if check == Done && i in a.files && Solid(a, i) && off <= |a.files[i]| {
      DenseFuseWrite(a, path, off, data, permitted, st, r, a');
      DenseFuseWrite(a, path, off, data, permitted, su, s, b');
    }
  }

  /** A FUSE write begins within its file. */
  ghost predicate Within(a: Abs, cmd: Cmd) {
    cmd.FuseWrite? ==>
      var (check, i) := FuseOpenCheck(a.tree, cmd.path, cmd.permitted);
      check == Done ==> i in a.files && cmd.offset <= |a.files[i]|
  }

  /** The state before a command decides its answer and the state after it, but for the bytes of files; where no file
      has a hole, and a FUSE write begins within its file, also these. */
  lemma StepIsDetermined(a: Abs, start: nat, cmd: Cmd, ans: Answer, a': Abs, ans2: Answer, b': Abs)
    requires AbsOk(a) && CmdOk(cmd) && Step(a, start, cmd, ans, a') && Step(a, start, cmd, ans2, b')
    ensures ans == ans2 && SameButBytes(a', b')
    ensures AllSolid(a) && Within(a, cmd) ==> a' == b'
  {
    hide AbsOk, WriteStep, CreateStep, OpenStep, MkdirStep, FuseWriteStep, DeleteTarget, Unlinked,
         ReadBytes, FuseOpenCheck, Resolve, BaseName, DirName, EmptyDir, IsOpen, Solid;
    NamedTree(a);
    match cmd
    case Create(path, permitted) => CreateIsDetermined(a, start, path, permitted, ans.code, a', ans2.code, b');
    case Open(path, mode, permitted) => OpenIsDetermined(a, start, path, mode, permitted, ans.code, a', ans2.code, b');
    case Write(fd, data, permitted) =>
      WriteIsDetermined(a, fd, data, permitted, ans.code, a', ans2.code, b');
      OnlyOldFiles(a, fd, data, permitted, ans.code, a');
      OnlyOldFiles(a, fd, data, permitted, ans2.code, b');
      UnusableWrite(a, fd, data, permitted, ans.code, a', ans2.code, b');
    case Delete(path, permitted) =>
      if ans.code == 0 {
        var (dir, name, i) := DeleteTarget(a.tree, path, start).value;
        OneUnlinked(a, dir, name, i, a', b');
      }
    case Mkdir(path, permitted) => MkdirIsDetermined(a, path, permitted, ans.status, a', ans2.status, b');
    case Rmdir(path, permitted) =>
      if ans.status == Done {
        var i, parent := Resolve(a.tree, path, ROOT_INODE).value, Resolve(a.tree, DirName(path), ROOT_INODE);
        OneUnlinked(a, parent.value, BaseName(path), i, a', b');
      }
    case FuseWrite(path, off, data, permitted) =>
      FuseWriteIsDetermined(a, path, off, data, permitted, ans.status, ans.code, a', ans2.status, ans2.code, b');
    case _ =>
  }

  lemma OneUnlinked(a: Abs, dir: nat, name: Str, i: nat, a': Abs, b': Abs)
    requires dir in a.tree.ents && Unlinked(a, dir, name, i, a') && Unlinked(a, dir, name, i, b')
    ensures a' == b'
  {
    hide RemoveNode, OfInode;
  }

  lemma UnusableWrite(a: Abs, fd: int, data: seq<byte>, permitted: bool, r: int, a': Abs, s: int, b': Abs)
    requires WriteStep(a, fd, data, permitted, r, a') && WriteStep(a, fd, data, permitted, s, b')
    ensures Usable(a, fd, ReadOnly, permitted) ==> a.fds[fd].ino in a.files
    ensures !Usable(a, fd, ReadOnly, permitted) ==> a' == b'
  {
    hide Fitting, Mapping, Stored;
  }
}
