/**
 Whole runs: a volume is formatted, mounted, and then any sequence of file
 system calls is made, with remounts in between. What Mounted says holds at
 every step.
 */
module SfsRun {
  import opened SfsLayout
  import opened SfsVolume
  import opened SfsVnode
  import opened SfsTable
  import opened SfsDir
  import opened SfsOps
  import opened SfsFs
  import opened Bitmap
  import opened Mksfs

  /** One call on the file system; directories and files are given by their place in the vnode table. */
  datatype Op =
    | OpGetRoot
    | OpLookup(d: nat, name: seq<Byte>)
    | OpCreat(d: nat, name: seq<Byte>, excl: bool)
    | OpLink(d: nat, name: seq<Byte>, i: nat)
    | OpRemove(d: nat, name: seq<Byte>)
    | OpRename(d: nat, from: seq<Byte>, to: seq<Byte>)
    | OpIo(i: nat, u: Uio)
    | OpTruncate(i: nat, len: nat)
    | OpFsync(i: nat)
    | OpRelease(i: nat)
    | OpSync

  /** The call's arguments are what a caller can have: open vnodes, C strings, a directory where one is needed. */
  predicate CanCall(s: State, op: Op) {
    match op
    case OpGetRoot => true
    case OpSync => true
    case OpLookup(d, name) => IsRoot(s, d) && IsName(name)
    case OpCreat(d, name, _) => IsRoot(s, d) && IsName(name)
    case OpLink(d, name, i) => IsRoot(s, d) && IsName(name) && i < |s.vnodes| && s.vnodes[i].ino != ROOT
    case OpRemove(d, name) => IsRoot(s, d) && IsName(name)
    case OpRename(d, from, to) => IsRoot(s, d) && IsName(from) && IsName(to)
    case OpIo(i, u) => i < |s.vnodes| && u.Valid()
    case OpTruncate(i, len) => i < |s.vnodes| && len < 0x8000_0000
    case OpFsync(i) => i < |s.vnodes|
    case OpRelease(i) => i < |s.vnodes|
  }

  /** sfs_getroot. */
  method GetRoot(fs: Sfs) returns (i: nat)
    requires Mounted(fs)
    modifies fs
    ensures Mounted(fs) && fs.vol == old(fs.vol) && IsRoot(fs.s, i)
  {
    ghost var loaded := Loaded(fs.s.vnodes);
    i := LoadVnode(fs, ROOT);
    TableLoad(fs.vol.files, DirSlots(fs.vol), loaded, Loaded(fs.s.vnodes));
    assert fs.s.vnodes[i].inode.kind == TYPE_DIR;
  }

  method Step(fs: Sfs, op: Op)
    requires Mounted(fs) && CanCall(fs.s, op)
    modifies fs
    ensures Mounted(fs)
  {
    match op
    case OpGetRoot => var i := GetRoot(fs);
    case OpSync => Sync(fs);
    case OpLookup(d, name) => var r := Lookup(fs, d, name);
    case OpCreat(d, name, excl) => var r := Creat(fs, d, name, excl);
    case OpLink(d, name, i) => var r := Link(fs, d, name, i);
    case OpRemove(d, name) => var r := Remove(fs, d, name);
    case OpRename(d, from, to) => var r := Rename(fs, d, from, to);
    case OpIo(i, u) =>
      if u.rw == Read {
        var r, u', t := ReadFile(fs, i, u);
      } else {
        var r, u', t := WriteFile(fs, i, u);
      }
    case OpTruncate(i, len) => var r := TruncateFile(fs, i, len);
    case OpFsync(i) => Fsync(fs, i);
    case OpRelease(i) => Release(fs, i);
  }

  /** Any sequence of calls; a call nobody can make is skipped. */
  method Execute(fs: Sfs, ops: seq<Op>)
    requires Mounted(fs)
    modifies fs
    ensures Mounted(fs)
  {
    for k := 0 to |ops|
      invariant Mounted(fs)
    {
      if CanCall(fs.s, ops[k]) {
        Step(fs, ops[k]);
      }
    }
  }

  /**
   From mkfs on: format, mount, and any number of sessions, each a run of calls
   and an attempt to remount, which leaves the volume mounted as it was if it
   is busy. Every state this can reach is in order, and has at most 131072
   blocks, so that no device offset overflows. The device has fewer than 2^22
   blocks, since its size in bytes is a 32-bit off_t.
   */
  method Lifetime(disk: seq<Block>, volname: seq<Byte>, sessions: seq<seq<Op>>) returns (r: Result<Sfs>)
    requires |disk| < MAXBLOCKS && IsName(volname)
    ensures r.Ok? <==> |volname| < VOLNAME_SIZE && 3 <= |disk| <= 131072
    ensures r.Ok? ==> fresh(r.value) && Mounted(r.value) && |r.value.s.disk| == |disk| <= 131072
  {
    MapSizes(|disk|);
    var ok, d := Format(disk, volname);
    if !ok {
      return Err(EINVAL);
    }
    MapFits(InitialVol(d));
    var panic;
    panic, r := DoMount(d, InitialVol(d));
    var fs := r.value;
    assert Loaded(fs.s.vnodes) == {};
    for k := 0 to |sessions|
      invariant fresh(fs) && Mounted(fs) && fs.nblocks == |disk|
    {
      Execute(fs, sessions[k]);
      var again := Remount(fs);
      if again.Ok? {
        fs := again.value;
      }
    }
    r := Ok(fs);
  }

  /**
   What Mounted says of each block: it is marked in the freemap exactly when a
   file (as data, indirect or inode block) or the file system itself uses it,
   and then exactly one of them does.
   */
  lemma BlockAccounting(fs: Sfs, b: nat)
    requires Mounted(fs) && b < 8 * |fs.s.bits|
    ensures BitAt(fs.s.bits, b) <==> exists o :: Points(fs.vol, o, b)
    ensures forall o, o' | Points(fs.vol, o, b) && Points(fs.vol, o', b) :: o == o'
  {
    Bitmaps(|fs.s.disk|);
    assert BitAt(fs.s.bits, b) <==> b in fs.vol.owner;
    ExactlyOneOwner(fs.vol, b);
  }
}
