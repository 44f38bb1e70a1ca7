/** The value types of the file utility: the two entry records, the file-type
    enumerations they carry, and the abstract filesystem the operations read. */
module FileTypes {

  datatype Option<+T> = None | Some(value: T)

  /** fileutil_ftype_t, in declaration order (so its C values are 0, 1, 2). */
  datatype FType = RegularFile | Directory | Symlink

  /** The reading back of a C value of fileutil_ftype_t (None for a value
      outside the enumeration, such as -1). */
  function FTypeOfValue(v: int): Option<FType>
  {
    if v == 0 then Some(RegularFile)
    else if v == 1 then Some(Directory)
    else if v == 2 then Some(Symlink)
    else None
  }

  /** The C value of a fileutil_ftype_t enumerator. */
  function FTypeValue(t: FType): (v: int)
    ensures 0 <= v <= 2
    ensures FTypeOfValue(v) == Some(t)
  {
    match t
    case RegularFile => 0
    case Directory => 1
    case Symlink => 2
  }

  /** GLib's GFileType, the type a GFileInfo reports. */
  datatype GFileType =
    | TypeUnknown | TypeRegular | TypeDirectory | TypeSymbolicLink
    | TypeSpecial | TypeShortcut | TypeMountable

  /** fileutil_file_prop_t: an entry of the flat lstat-based listing.
      size and ftype hold -1 when lstat failed on path. */
  datatype FileProp = FileProp(name: string, path: string, size: int, ftype: int)

  /** fileutil_file_prop2_t: an entry of the GIO-based enumeration. */
  datatype FileProp2 = FileProp2(name: string, path: string, size: int, kind: GFileType)

  /** What lstat reports about a path: the st_mode word and st_size. */
  datatype Stat = Stat(mode: bv32, size: nat)

  /** One object as GIO's enumerator reports it: the attributes queried
      (name, type, size) and, for an object that enumerates as a directory,
      its children in the order the enumerator returns them. The type is
      whatever GIO reports with G_FILE_QUERY_INFO_NONE, so a symbolic link
      to a directory may report TypeDirectory and carry the target's children. */
  datatype Node = Node(name: string, kind: GFileType, size: int, children: seq<Node>)
}
