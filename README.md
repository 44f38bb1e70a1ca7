# glib_copy file utility — a Dafny model

This project models the core of `file_util.c` of glib_copy, a small GLib/GIO
file-tree copy tool:

- `strip_newline`: pick line number `line` of a text split on `'\n'`;
- `fileutil_get_size` / `fileutil_get_type`: what `lstat` says about a path,
  including the bit-mask classification of `st_mode`;
- `fileutil_dir_list`: a flat, lstat-based listing of one directory;
- `fileutil_get_prop`, `fileutil_ls_dir`, `fileutil_ls`: the GIO-based
  enumeration, a depth-first pre-order walk that appends to one list;
- `fileutil_cp`: list the source recursively, then one `g_file_copy` per entry.

The filesystem is an input. The GIO side is a tree of `Node`s (name, reported
`GFileType`, size, and children in the enumerator's order); the lstat side is a
map from path to `Stat` (mode word as `bv32`, size); a `g_dir` listing is an
`Option<seq<string>>` (None when the directory cannot be opened); the result of
the k-th `g_file_copy` is `outcome(k)`.

Modules: `FileTypes` (the enumerations and the two entry records of
file_util.h), `Lines`, `Probe`, `Paths` (the `"%s/%s"` composition and its
inverse), `Listing`, `Copy`.

What the code does, and the model with it:

- There is no relative path: an entry has a name, a path, a size and a type.
- The destination of every entry is `dest/name`, so nested entries are
  flattened into `dest` (`Copy.NestedEntriesCollide`).
- The copy is a single pass over the listing, with no directory phase and no
  way for a callback to stop it.
- The type of an enumerated entry is what GIO reports with
  `G_FILE_QUERY_INFO_NONE`; nothing prevents a symbolic link from reporting
  as a directory and being descended, so a node's type is an opaque input.
- A root that is not a directory yields its own entry with path `./name`;
  only a directory with no children yields an empty listing.
- `st_mode` is classified by testing the directory bit first, so block
  devices and sockets count as directories.

## Model

| member | source | states |
|---|---|---|
| `FileTypes.FTypeValue` | file_util.h:8-12 | the C values of `fileutil_ftype_t` are 0..2 and read back to the same enumerator |
| `Probe.Classify` | file_util.c:46-48 | FTYPE_DIRECTORY exactly when bit 0040000 is set; FTYPE_SYMLINK exactly when that bit is clear and every bit of 0120000 is set; for every POSIX file format the result is the table entry (DIR, BLK, SOCK: directory; LNK: symlink; REG, CHR, FIFO: regular file), whatever the permission bits |
| `Probe.GetSize` | file_util.c:31-38 | -1 exactly when lstat fails, otherwise st_size (never below -1) |
| `Probe.GetType` | file_util.c:40-49 | -1 (no enumerator) exactly when lstat fails, otherwise a value that reads back as the classification of st_mode |
| `Lines.Segments` | file_util.c:10 | `g_strsplit_set(s, "\n", -1)`: no pieces exactly for the empty text; otherwise pieces that rejoin with `'\n'` to the text, one more than its newlines |
| `Lines.SplitJoin` | file_util.c:10 | the pieces of a text split on `'\n'` joined with `'\n'` give back the text; no piece holds `'\n'`; there is one piece more than newlines |
| `Lines.JoinSplit` | file_util.c:10 | newline-free pieces joined with `'\n'` split back into exactly those pieces |
| `Lines.StripNewline` | file_util.c:8-18 | a result exactly when the split has a piece number `max(line, 0)` (none for the empty text); that result is that piece, so the first piece for `line <= 0`, and holds no `'\n'` |
| `Paths.SplitJoinPath` | file_util.c:89 | a path composed as `parent/name`, with no `'/'` in name, splits at its last `'/'` back into parent and name |
| `Listing.DirList` | file_util.c:62-82 | one entry per listed name, in listing order, with that name, path `path/name`, and lstat's size and type for that path; an unopenable directory gives no entries; `recursive` has no effect |
| `Listing.GetProp` | file_util.c:84-98 | the entry takes name, size and type from the info; its path is `parent/name` when a parent path is given and `./name` when it is not |
| `Listing.GetPropPathSplits` | file_util.c:84-98 | the entry keeps the info's name, size and type; its path splits back into the parent (`.` when none is given) and the name |
| `Listing.LsDir` | file_util.c:101-120 | the result is the incoming list followed by the pre-order walk of the directory: per child, its entry, then its subtree only if it reports as a directory and the walk is recursive |
| `Listing.Ls` | file_util.c:122-139 | a root that reports as a directory gives its walk from an empty list; any other root gives exactly one entry, with path `./name` |
| `Listing.NonRecursiveIsChildren` | file_util.c:104-116 | without recursion the walk is exactly the immediate children's entries, in enumerator order, each with path `dir/name` |
| `Listing.ListingGrows` | file_util.c:110-113 | entries are only appended: the list after k children is a prefix of the list after any later child |
| `Listing.ChildEntryAt` | file_util.c:108-115 | pre-order: child k's entry stands right after everything listed for the earlier children, before its own subtree, and that subtree ends before child k+1's entry |
| `Listing.ListedBelow` | file_util.c:108-113 | every entry of a directory's walk has a path that starts with `dir/` and ends with `/name` |
| `Listing.VisitedBelow` | file_util.c:108-115 | the same for one child together with its subtree |
| `Listing.WalkEmptyIff` | file_util.c:104-106 | the walk over the first i children is empty exactly when i is 0 |
| `Listing.LsEmptyIff` | file_util.c:128-136 | the listing is empty exactly for a root that reports as a directory and has no children |
| `Copy.CopyEntries` | file_util.c:165-188 | corrected loop: every entry is attempted in list order whatever earlier results were, from the entry's path to `dest/name`, with result outcome(k); a GError is freed exactly on failed passes and none twice |
| `Copy.CopyEntriesAsWritten` | file_util.c:165-188 | loop as written: same sources, destinations and results, but pass k frees the GError of the first failed pass up to k |
| `Copy.FirstFailureSticks` | file_util.c:166-187 | once pass j has failed (all earlier passes succeeded), every later pass of the as-written loop frees pass j's GError |
| `Copy.NoFailureYet` | file_util.c:184-187 | while every pass succeeds, the as-written loop frees nothing |
| `Copy.StaleErrorFreedTwice` | file_util.c:184-187 | if the first copy fails, the as-written loop frees that GError on both the first and the second pass |
| `Copy.Cp` | file_util.c:150-188 | corrected fileutil_cp (error cleared after the free): copies the recursive listing of the source: one pass per entry, in order, source path = entry path, destination = `dest/name`; nothing happens exactly when the listing is empty; no GError is freed twice |
| `Copy.CpAsWritten` | file_util.c:150-188 | fileutil_cp as written: the same recursive listing, one pass per entry in order from the entry path to `dest/name` with result outcome(k), nothing exactly when the listing is empty; pass k frees the GError of the first failed pass up to k |
| `Copy.NestedEntriesCollide` | file_util.c:169-170 | two entries `/r/a/x` and `/r/x` of one tree get the same destination `dest/x` |

## Findings

| source | as written | input that shows it | evidently intended | confidence | as-written member | corrected member |
|---|---|---|---|---|---|---|
| file_util.c:166-187 | `error` is freed after a failed copy but never set back to NULL, so from then on every pass finds it non-NULL, logs its freed message and frees it again | a listing of two entries whose first `g_file_copy` fails: the second pass frees the first pass's GError a second time | clear the variable after freeing it (`g_clear_error(&error)`), so each pass starts with no error and each GError is freed once | not executed; the double free follows from the loop alone, while what `g_file_copy` does with a non-NULL error location is GLib's and left abstract | `Copy.CpAsWritten`, `Copy.CopyEntriesAsWritten`, `Copy.FirstFailureSticks`, `Copy.StaleErrorFreedTwice` | `Copy.Cp`, `Copy.CopyEntries` |

`Copy.Cp` uses the corrected loop; `Copy.CpAsWritten` is the function as written.

## Left out

- main.c: option parsing, log-level setup and the log writer, the copy thread; it also calls a three-argument `fileutil_cp` and a `fileutil_ls_clear` that file_util.h does not declare.
- The filesystem and GIO calls themselves (`lstat`, `g_dir_open`/`g_dir_read_name`, `g_file_enumerate_children`, `g_file_query_file_type`/`g_file_query_info`, `g_file_copy`): their results are inputs (the tree, the listing, the lstat map, `outcome`); what a copy does on disk is not modelled.
- `fileutil_get_line`: only its `strip_newline` part is modelled; reading the file is I/O.
- `fileutil_delete`: a single foreign call plus logging.
- The progress printer `fileutil_cp_cbk`, the destination type probe and every `g_printf`/`g_warning` line: output only. The result each pass prints is the `ok` field of its step.
- Memory ownership: `g_free`, `g_object_unref`, the never-freed list in `fileutil_cp`. Only the freeing of the GError is modelled, because of the finding above.
- `Listing.LsDir`: the path of a subdirectory is passed on as composed; GIO's canonicalisation in `g_file_get_path` is not modelled (the two differ only for the root `/`).
- `Listing.Ls`: a root that cannot be queried at all (a NULL `GFileInfo`) is not modelled; the root always has a name, size and type.
- `Listing.GetPropPathSplits`: the `is_symlink` attribute, which the source reads and discards, is not part of the node.
- `Lines.StripNewline`: the text is a sequence of characters and may hold `'\0'`, which a C string cannot; the model is meant for NUL-free text, and splitting characters on `'\n'` agrees with GLib's byte-wise split only for valid UTF-8.
- `Lines.StripNewline`: `line` is an unbounded integer rather than `gint`; sizes are unbounded rather than 64-bit.
