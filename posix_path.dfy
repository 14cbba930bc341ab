/** The parts of Python's POSIX `os.path` module and `str` methods that the
    converter relies on, as string functions with `/` as the only separator
    and `.` as the extension separator. */
module PosixPath {

  const Sep: char := '/'
  const ExtSep: char := '.'

  /** `s.endswith(suffix)`: a raw, case-sensitive comparison of the tail of `s`.
      Every string ends with the empty suffix. */
  predicate EndsWith(s: string, suffix: string) {
    |suffix| <= |s| && s[|s| - |suffix|..] == suffix
  }

  /** No character of `s` is the separator. */
  predicate NoSep(s: string) {
    forall k :: 0 <= k < |s| ==> s[k] != Sep
  }

  /** No character of `s` is `.`. */
  predicate NoExtSep(s: string) {
    forall k :: 0 <= k < |s| ==> s[k] != ExtSep
  }

  /** `s` holds a character other than the separator. */
  predicate HasNonSep(s: string) {
    exists k :: 0 <= k < |s| && s[k] != Sep
  }

  /** `s` holds a character other than `.`. */
  predicate HasNonDot(s: string) {
    exists k :: 0 <= k < |s| && s[k] != ExtSep
  }

  /** `s.rfind(c)`: the index of the last `c` in `s`, or -1 when there is none. */
  function RFind(s: string, c: char): (i: int)
    ensures -1 <= i < |s|
    ensures i >= 0 ==> s[i] == c
    ensures forall j :: i < j < |s| ==> s[j] != c
  {
    if |s| == 0 then -1
    else if s[|s| - 1] == c then |s| - 1
    else RFind(s[..|s| - 1], c)
  }

  /** `s.rstrip('/')`: `s` without its trailing separators. */
  function RStripSep(s: string): (r: string)
    ensures |r| <= |s| && r == s[..|r|]
    ensures r == [] || r[|r| - 1] != Sep
    ensures forall k :: |r| <= k < |s| ==> s[k] == Sep
  {
    if |s| > 0 && s[|s| - 1] == Sep then RStripSep(s[..|s| - 1]) else s
  }

  /** `os.path.join(a, b)`: an absolute `b` replaces `a`; otherwise `b` is
      appended to `a`, with a separator between them unless `a` is empty or
      already ends with one. */
  function Join(a: string, b: string): (r: string)
    ensures EndsWith(r, b)
    ensures |b| > 0 && b[0] == Sep ==> r == b
    ensures (|b| == 0 || b[0] != Sep) ==>
      && |a| + |b| <= |r| <= |a| + |b| + 1
      && r[..|a|] == a
      && (forall k :: |a| <= k < |r| - |b| ==> r[k] == Sep)
      && (|r| == |a| + |b| + 1 <==> a != [] && a[|a| - 1] != Sep)
  {
    if |b| > 0 && b[0] == Sep then b
    else if a == [] || a[|a| - 1] == Sep then a + b
    else a + [Sep] + b
  }

  /** `os.path.split(p)`: the tail is everything after the last separator; the
      head is everything up to it, with trailing separators removed unless the
      head consists of separators only. */
  function Split(p: string): (r: (string, string))
    ensures NoSep(r.1) && |r.1| <= |p| && r.1 == p[|p| - |r.1|..]
    ensures |r.0| + |r.1| <= |p| && r.0 == p[..|r.0|]
    ensures |r.1| == |p| || p[|p| - |r.1| - 1] == Sep
    ensures r.0 == [] <==> NoSep(p)
    ensures forall k :: |r.0| <= k < |p| - |r.1| ==> p[k] == Sep
  {
    var i := RFind(p, Sep) + 1;
    var head, tail := p[..i], p[i..];
    assert forall k :: 0 <= k < |tail| ==> tail[k] == p[i + k];
    if head != [] && HasNonSep(head) then
      (RStripSep(head), tail)
    else
      (head, tail)
  }

  /** `os.path.splitext(p)`: split at the last `.` of the last path component,
      unless every character of that component before the `.` is itself a `.`
      (so `.bashrc` and `..` have no extension). */
  function SplitExt(p: string): (r: (string, string))
    ensures r.0 + r.1 == p
    ensures r.1 == [] || (r.1[0] == ExtSep && NoSep(r.1))
    ensures r.1 != [] ==> NoExtSep(r.1[1..])
    ensures r.1 != [] ==> HasNonDot(r.0)
  {
    var sepIndex := RFind(p, Sep);
    var dotIndex := RFind(p, ExtSep);
    if dotIndex > sepIndex && exists k :: sepIndex + 1 <= k < dotIndex && p[k] != ExtSep then
      var root, ext := p[..dotIndex], p[dotIndex..];
      assert forall k :: 0 <= k < |ext| ==> ext[k] == p[dotIndex + k];
      (root, ext)
    else
      (p, [])
  }

  /** `Join` puts a plain component after a prefix that is empty or ends with
      a separator. */
  lemma JoinPrefix(path: string, item: string) returns (prefix: string)
    requires NoSep(item)
    ensures Join(path, item) == prefix + item
    ensures prefix == [] || prefix[|prefix| - 1] == Sep
    ensures path != [] && path[|path| - 1] != Sep ==> prefix == path + [Sep]
  {
    prefix := if path == [] || path[|path| - 1] == Sep then path else path + [Sep];
  }

  /** The last separator of a prefix followed by a plain component is the
      prefix's last character. */
  lemma RFindAfterPrefix(prefix: string, item: string)
    requires NoSep(item)
    requires prefix == [] || prefix[|prefix| - 1] == Sep
    ensures RFind(prefix + item, Sep) == |prefix| - 1
  {
    var s := prefix + item;
    var i := RFind(s, Sep);
    if prefix != [] {
      assert s[|prefix| - 1] == Sep;
    }
    assert forall k :: |prefix| <= k < |s| ==> s[k] == item[k - |prefix|];
  }

  /** A path ending in a component with no separator inside it: the component
      comes back as the tail of `Split`. */
  lemma SplitJoinTail(path: string, item: string)
    requires NoSep(item)
    ensures Split(Join(path, item)).1 == item
  {
    var prefix := JoinPrefix(path, item);
    RFindAfterPrefix(prefix, item);
    assert (prefix + item)[|prefix|..] == item;
  }

  /** Any directory joined with a plain component splits back into that
      component and the directory with its trailing separators removed, or
      the directory unchanged when it is empty or made of separators only. */
  lemma SplitJoinAny(path: string, item: string)
    requires NoSep(item)
    ensures Split(Join(path, item)) == (if HasNonSep(path) then RStripSep(path) else path, item)
  {
    var prefix := JoinPrefix(path, item);
    var s := prefix + item;
    RFindAfterPrefix(prefix, item);
    var i := |prefix|;
    assert s[..i] == prefix && s[i..] == item;
    if path != [] && path[|path| - 1] != Sep {
      assert path[|path| - 1] != Sep;
      assert prefix[|path| - 1] != Sep;
      assert RStripSep(prefix) == RStripSep(path) by {
        assert prefix[..|prefix| - 1] == path;
      }
      assert Split(s) == (RStripSep(prefix), item);
    } else {
      assert prefix == path;
      assert HasNonSep(prefix) <==> HasNonSep(path);
    }
  }

  /** A plain directory name (non-empty, no trailing separator) joined with a
      plain component splits back into the two. */
  lemma SplitJoin(path: string, item: string)
    requires NoSep(item)
    requires path != [] && path[|path| - 1] != Sep
    ensures Split(Join(path, item)) == (path, item)
  {
    SplitJoinAny(path, item);
    assert path[|path| - 1] != Sep;
  }

  /** Appending `.` and an extension that holds no `.` or separator to a stem
      that is not made of dots only is undone by `SplitExt`. */
  lemma SplitExtAppend(root: string, fmt: string)
    requires NoSep(root) && HasNonDot(root)
    requires NoSep(fmt) && NoExtSep(fmt)
    ensures SplitExt(root + [ExtSep] + fmt) == (root, [ExtSep] + fmt)
  {
    var s := root + [ExtSep] + fmt;
    var sepIndex := RFind(s, Sep);
    assert forall k :: 0 <= k < |root| ==> s[k] == root[k];
    assert forall k :: |root| < k < |s| ==> s[k] == fmt[k - |root| - 1];
    var dotIndex := RFind(s, ExtSep);
    assert s[|root|] == ExtSep;
    var k :| 0 <= k < |root| && root[k] != ExtSep;
    assert s[k] == root[k];
    assert s[..dotIndex] == root;
    assert s[dotIndex..] == [ExtSep] + fmt;
  }

  /** For a single path component, `SplitExt` finds an extension exactly when
      some `.` in the name comes after a character that is not a `.`. */
  lemma SplitExtFindsExtension(name: string)
    requires NoSep(name)
    ensures SplitExt(name).1 != [] <==>
      exists i, j :: 0 <= j < i < |name| && name[j] != ExtSep && name[i] == ExtSep
  {
  }
}
