/**
  The file system the app sees, as a value: a map from path to entry. A
  regular file either holds valid UTF-8 text (what `fs::read_to_string`
  accepts) or bytes that are not (it then fails); its size is what
  `metadata().len()` reports, the number of bytes.
 */
module Disk {
  import opened Wrappers
  import opened Text

  datatype Entry =
    | TextFile(contents: string)
    | BinaryFile(size: nat)
    | Directory(size: nat)

  type FileSystem = map<string, Entry>

  /** Bytes that UTF-8 uses for one scalar value. */
  function Utf8Width(c: char): (n: nat)
    ensures 1 <= n <= 4
  {
    if c as int < 0x80 then 1
    else if c as int < 0x800 then 2
    else if c as int < 0x1_0000 then 3
    else 4
  }

  /** The UTF-8 length of a text: between one and four bytes per character. */
  function Utf8Len(s: string): (n: nat)
    ensures |s| <= n <= 4 * |s|
  {
    if s == [] then 0 else Utf8Width(s[0]) + Utf8Len(s[1..])
  }

  /** `metadata().len()` */
  function Size(e: Entry): nat {
    match e
    case TextFile(t) => Utf8Len(t)
    case BinaryFile(n) => n
    case Directory(n) => n
  }

  /** `Path::exists`: the empty path never exists. */
  predicate Exists(fs: FileSystem, path: string) {
    path != "" && path in fs
  }

  /** `Path::is_file` */
  predicate IsFile(fs: FileSystem, path: string) {
    Exists(fs, path) && !fs[path].Directory?
  }

  /** `fs::read_to_string`: fails on a directory and on bytes that are not UTF-8. */
  function ReadToString(e: Entry): (r: Option<string>)
    ensures r.Some? <==> e.TextFile?
    ensures r.Some? ==> Size(e) == Utf8Len(r.value)
  {
    if e.TextFile? then Some(e.contents) else None
  }

  predicate IsSeparator(c: char) {
    c == '/' || c == '\\'
  }

  /** The last component of a path: the text after its last separator. */
  function FileName(path: string): (r: string)
    ensures |r| <= |path|
  {
    if path == [] || IsSeparator(path[|path| - 1]) then []
    else FileName(path[..|path| - 1]) + [path[|path| - 1]]
  }

  /** The file name is the separator-free tail of the path, after its last separator. */
  lemma {:induction false} FileNameIsLastComponent(path: string)
    ensures FileName(path) == path[|path| - |FileName(path)|..]
    ensures forall i :: 0 <= i < |FileName(path)| ==> !IsSeparator(FileName(path)[i])
    ensures |FileName(path)| < |path| ==> IsSeparator(path[|path| - |FileName(path)| - 1])
    decreases |path|
  {
    if path != [] && !IsSeparator(path[|path| - 1]) {
      FileNameIsLastComponent(path[..|path| - 1]);
    }
  }

  /** Index of the last '.' in a text. */
  function LastDot(s: string): (r: Option<nat>)
    ensures r.Some? ==> r.value < |s|
  {
    if s == [] then None
    else if s[|s| - 1] == '.' then Some(|s| - 1)
    else LastDot(s[..|s| - 1])
  }

  /** `LastDot` finds the last '.', and finds none only in a text without one. */
  lemma {:induction false} LastDotIsLast(s: string)
    ensures LastDot(s).None? <==> '.' !in s
    ensures LastDot(s).Some? ==> s[LastDot(s).value] == '.' && '.' !in s[LastDot(s).value + 1..]
    decreases |s|
  {
    if s != [] && s[|s| - 1] != '.' {
      var init := s[..|s| - 1];
      LastDotIsLast(init);
      assert s == init + [s[|s| - 1]];
      if LastDot(init).Some? {
        var k := LastDot(init).value;
        assert s[k + 1..] == init[k + 1..] + [s[|s| - 1]];
      }
    }
  }

  /**
    `Path::extension`: the text after the last '.' of the file name, unless
    the name has no '.', its only '.' is its first character, or it is "..".
   */
  function Extension(path: string): Option<string> {
    var name := FileName(path);
    if name == ".." then None
    else match LastDot(name)
      case None => None
      case Some(k) => if k == 0 then None else Some(name[k + 1..])
  }

  /** An extension holds no '.', and the path ends with '.' and the extension. */
  lemma {:induction false} ExtensionIsSuffix(path: string)
    requires Extension(path).Some?
    ensures '.' !in Extension(path).value
    ensures |Extension(path).value| < |path|
    ensures path[|path| - |Extension(path).value| - 1] == '.'
    ensures path[|path| - |Extension(path).value|..] == Extension(path).value
  {
    var name := FileName(path);
    var k := LastDot(name).value;
    var ext := name[k + 1..];
    assert Extension(path).value == ext;
    FileNameIsLastComponent(path);
    LastDotIsLast(name);
    var start := |path| - |name|;
    assert path[start..] == name;
    assert path[start + k] == name[k] == '.';
    assert path[start + k + 1..] == ext;
  }

  function AsciiLower(c: char): char {
    if 'A' <= c <= 'Z' then (c as int + 32) as char else c
  }

  /** `str::eq_ignore_ascii_case` */
  predicate EqIgnoreAsciiCase(a: string, b: string) {
    |a| == |b| && forall i :: 0 <= i < |a| ==> AsciiLower(a[i]) == AsciiLower(b[i])
  }

  /** `is_file_with_ext` (src/main.rs:887-894) */
  predicate IsFileWithExt(fs: FileSystem, path: string, ext: string) {
    IsFile(fs, path) && Extension(path).Some? && EqIgnoreAsciiCase(Extension(path).value, ext)
  }

  /**
    A path passes the extension check only when it names an existing
    regular file whose name ends in '.' and the extension, in any ASCII case.
   */
  lemma {:induction false} FileWithExtEndsWithExt(fs: FileSystem, path: string, ext: string)
    requires IsFileWithExt(fs, path, ext)
    ensures |ext| < |path| && path[|path| - |ext| - 1] == '.'
    ensures EqIgnoreAsciiCase(path[|path| - |ext|..], ext)
  {
    ExtensionIsSuffix(path);
  }
}
