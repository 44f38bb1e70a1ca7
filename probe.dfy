/** fileutil_get_size and fileutil_get_type: what lstat says about a path. */
module Probe {
  import opened FileTypes

  // The file-format field of st_mode and its values (POSIX; octal in C).
  const S_IFMT: bv32 := 0xF000    // 0170000
  const S_IFSOCK: bv32 := 0xC000  // 0140000
  const S_IFLNK: bv32 := 0xA000   // 0120000
  const S_IFREG: bv32 := 0x8000   // 0100000
  const S_IFBLK: bv32 := 0x6000   // 0060000
  const S_IFDIR: bv32 := 0x4000   // 0040000
  const S_IFCHR: bv32 := 0x2000   // 0020000
  const S_IFIFO: bv32 := 0x1000   // 0010000

  /** The seven file formats POSIX defines. */
  predicate IsFileFormat(fmt: bv32)
  {
    fmt == S_IFSOCK || fmt == S_IFLNK || fmt == S_IFREG || fmt == S_IFBLK
    || fmt == S_IFDIR || fmt == S_IFCHR || fmt == S_IFIFO
  }

  /** What the classification in fileutil_get_type makes of each POSIX file
      format: the directory bit 0040000 is shared by block devices and
      sockets, so both land on FTYPE_DIRECTORY. */
  function FormatTable(fmt: bv32): FType
  {
    if fmt == S_IFDIR || fmt == S_IFBLK || fmt == S_IFSOCK then Directory
    else if fmt == S_IFLNK then Symlink
    else RegularFile
  }

  /** The classification of an st_mode word: the directory bit is tested
      first, then whether every bit of S_IFLNK is set; anything else is a
      regular file. For a mode whose format field is a POSIX format, the
      result is the table entry for that format, whatever the permission bits. */
  function Classify(mode: bv32): (t: FType)
    ensures t == Directory <==> mode & S_IFDIR != 0
    ensures t == Symlink <==> mode & S_IFDIR == 0 && mode & S_IFLNK == S_IFLNK
    ensures IsFileFormat(mode & S_IFMT) ==> t == FormatTable(mode & S_IFMT)
  {
    if mode & S_IFDIR == S_IFDIR then Directory
    else if mode & S_IFLNK == S_IFLNK then Symlink
    else RegularFile
  }

  /** fileutil_get_size: st_size, or -1 when lstat fails on the path. */
  function GetSize(fs: map<string, Stat>, fname: string): (r: int)
    ensures r >= -1
    ensures r == -1 <==> fname !in fs
    ensures fname in fs ==> r == fs[fname].size
  {
    if fname !in fs then -1 else fs[fname].size
  }

  /** fileutil_get_type: the C value of the classification, or -1 (outside
      the enumeration) when lstat fails on the path. */
  function GetType(fs: map<string, Stat>, fname: string): (r: int)
    ensures r == -1 <==> fname !in fs
    ensures fname in fs ==> FTypeOfValue(r) == Some(Classify(fs[fname].mode))
  {
    if fname !in fs then -1 else FTypeValue(Classify(fs[fname].mode))
  }
}
