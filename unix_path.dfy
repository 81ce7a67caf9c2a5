/** The parts of Rust's `std::path` on Unix that the notes commands rely on:
    `join`, `parent`, `file_name` and `set_extension`, on paths held as text.
    A path is read from the back, component by component, the way Rust's
    `Components` iterator does it: separators repeat freely, a `.` inside
    the body is no component, and a leading `/` (the root) or a leading
    `./` (the current directory) comes before the body. */
module UnixPath {
  import opened Basics

  predicate IsAbsolute(p: string) {
    |p| > 0 && p[0] == '/'
  }

  /** `Path::join`: an absolute `p` replaces `base`; otherwise `p` is
      appended, with a `/` in between unless `base` is empty or already ends
      in one. */
  function Join(base: string, p: string): (r: string)
    ensures IsAbsolute(p) ==> r == p
    ensures !IsAbsolute(p) && base == "" ==> r == p
    ensures !IsAbsolute(p) && base != "" && base[|base| - 1] == '/' ==> r == base + p
    ensures !IsAbsolute(p) && base != "" && base[|base| - 1] != '/' ==> r == base + "/" + p
  {
    if IsAbsolute(p) || base == "" then p
    else if base[|base| - 1] == '/' then base + p
    else base + "/" + p
  }

  /** A relative path that starts with the `.` component. */
  predicate IncludeCurDir(p: string) {
    !IsAbsolute(p) && |p| > 0 && p[0] == '.' && (|p| == 1 || p[1] == '/')
  }

  /** How many characters come before the body: the root or the leading `.`. */
  function BodyStart(p: string): (n: nat)
    ensures n <= 1 && n <= |p|
    ensures n == 1 <==> IsAbsolute(p) || IncludeCurDir(p)
  {
    if IsAbsolute(p) || IncludeCurDir(p) then 1 else 0
  }

  /** Where the last stretch of `q` without a separator begins, looking no
      further left than `lo`. */
  function CompStart(q: string, lo: nat): (r: nat)
    requires lo <= |q|
    ensures lo <= r <= |q|
    ensures r == lo || q[r - 1] == '/'
    ensures forall i :: r <= i < |q| ==> q[i] != '/'
    decreases |q|
  {
    if |q| == lo then lo
    else if q[|q| - 1] == '/' then |q|
    else CompStart(q[..|q| - 1], lo)
  }

  /** The length left once the stretch starting at `r` and the separator
      before it are dropped. */
  function Before(r: nat, lo: nat): nat {
    if r > lo then r - 1 else lo
  }

  /** Text between separators that stands for a component in the body: not
      empty and not `.`. */
  predicate IsComp(c: string) {
    c != "" && c != "."
  }

  /** `components().next_back()` inside the body: the span of the last
      component of `q`, skipping empty and `.` stretches. */
  function NextBack(q: string, lo: nat): (r: Option<(nat, nat)>)
    requires lo <= |q|
    ensures r.Some? ==> lo <= r.value.0 < r.value.1 <= |q| && IsComp(q[r.value.0..r.value.1])
    ensures r.Some? ==> forall i :: r.value.0 <= i < r.value.1 ==> q[i] != '/'
    ensures r.Some? ==> r.value.0 == lo || q[r.value.0 - 1] == '/'
    decreases |q|
  {
    if |q| <= lo then None
    else
      var r := CompStart(q, lo);
      if IsComp(q[r..]) then Some((r, |q|))
      else
        var b := Before(r, lo);
        var t := NextBack(q[..b], lo);
        if t.Some? then
          SpanOfPrefix(q, b, lo, t.value.0, t.value.1);
          t
        else t
  }

  /** A component span of a prefix of `q` is one of `q` itself. */
  lemma SpanOfPrefix(q: string, b: nat, lo: nat, i: nat, j: nat)
    requires lo <= i < j <= b <= |q|
    requires IsComp(q[..b][i..j]) && (i == lo || q[..b][i - 1] == '/')
    requires forall k :: i <= k < j ==> q[..b][k] != '/'
    ensures IsComp(q[i..j]) && (i == lo || q[i - 1] == '/')
    ensures forall k :: i <= k < j ==> q[k] != '/'
  {
    assert q[..b][i..j] == q[i..j];
  }

  /** `Components::as_path` after the last component is gone: trailing
      separators and `.` stretches of the body are dropped. */
  function TrimRight(q: string, lo: nat): (n: nat)
    requires lo <= |q|
    ensures lo <= n <= |q|
    ensures n == |q| || n == lo || (n > lo && IsComp(q[CompStart(q[..n], lo)..n]))
    decreases |q|
  {
    if |q| <= lo then |q|
    else
      var r := CompStart(q, lo);
      if IsComp(q[r..]) then |q|
      else
        var k := TrimRight(q[..Before(r, lo)], lo);
        assert q[..Before(r, lo)][..k] == q[..k];
        k
  }

  /** `Path::parent`: the path without its last component, or nothing when
      the last component is the root or there is none. */
  function Parent(p: string): (r: Option<string>)
    ensures r.Some? ==> r.value <= p && |r.value| < |p|
    ensures p == "" ==> r == None
  {
    var lo := BodyStart(p);
    var last := NextBack(p, lo);
    if last.Some? then
      var q := p[..Before(last.value.0, lo)];
      assert q[..TrimRight(q, lo)] == p[..TrimRight(q, lo)];
      Some(p[..TrimRight(q, lo)])
    else if IsAbsolute(p) then None
    else if IncludeCurDir(p) then Some("")
    else None
  }

  /** `Path::file_name`: the span of the last component unless it is `..`. */
  function FileName(p: string): (r: Option<(nat, nat)>)
    ensures r.Some? ==> r.value.0 < r.value.1 <= |p|
    ensures r.Some? ==> var name := p[r.value.0..r.value.1];
              IsComp(name) && name != ".." && forall i :: 0 <= i < |name| ==> name[i] != '/'
  {
    var last := NextBack(p, BodyStart(p));
    if last.Some? && p[last.value.0..last.value.1] != ".." then last else None
  }

  /** The position of the last `.` of `name`. */
  function LastDot(name: string): (r: Option<nat>)
    ensures r.Some? ==> r.value < |name| && name[r.value] == '.'
    ensures r.Some? ==> forall i :: r.value < i < |name| ==> name[i] != '.'
    ensures r.None? ==> forall i :: 0 <= i < |name| ==> name[i] != '.'
  {
    if name == [] then None
    else if name[|name| - 1] == '.' then Some(|name| - 1)
    else LastDot(name[..|name| - 1])
  }

  /** `Path::file_stem` of a file name: the text before its last `.`, or the
      whole name when it has no `.` or only a leading one. */
  function Stem(name: string): (r: string)
    ensures r <= name
    ensures name != "" ==> r != ""
    ensures (forall i :: 0 < i < |name| ==> name[i] != '.') ==> r == name
    ensures |r| < |name| ==> name[|r|] == '.' && forall i :: |r| < i < |name| ==> name[i] != '.'
  {
    match LastDot(name)
    case Some(k) => if k == 0 then name else name[..k]
    case None => name
  }

  /** `PathBuf::set_extension`: the path is cut right after the stem of its
      file name and `.ext` appended (nothing for an empty `ext`); a path
      with no file name is left alone. */
  function SetExtension(p: string, ext: string): (r: string)
    ensures FileName(p).None? ==> r == p
  {
    match FileName(p)
    case Some((s, e)) =>
      var stem := Stem(p[s..e]);
      p[..s] + stem + (if ext == "" then "" else "." + ext)
    case None => p
  }

  function EndsWith(s: string, suffix: string): bool {
    |suffix| <= |s| && s[|s| - |suffix|..] == suffix
  }

  /** A file name that is a single ordinary component. */
  predicate PlainName(name: string) {
    IsComp(name) && name != ".." && forall i :: 0 <= i < |name| ==> name[i] != '/'
  }

  /** A directory path that `parent` gives back whole: something before the
      body, or a body ending in an ordinary component. */
  predicate Settled(dir: string) {
    dir != "" && dir[|dir| - 1] != '/' && TrimRight(dir, BodyStart(dir)) == |dir|
  }

  lemma BodyStartOfJoin(dir: string, name: string)
    requires dir != "" && dir[|dir| - 1] != '/' && PlainName(name)
    ensures BodyStart(Join(dir, name)) == BodyStart(dir)
  {
    var p := Join(dir, name);
    assert p[0] == dir[0];
    if |dir| >= 2 {
      assert p[1] == dir[1];
    } else {
      assert p[1] == '/';
    }
  }

  lemma CompStartAt(q: string, lo: nat, k: nat)
    requires lo < k <= |q| && q[k - 1] == '/'
    requires forall i :: k <= i < |q| ==> q[i] != '/'
    ensures CompStart(q, lo) == k
    decreases |q|
  {
    if |q| > k {
      CompStartAt(q[..|q| - 1], lo, k);
    }
  }

  /** The last component of `dir/name` is `name`. */
  lemma NextBackOfJoin(dir: string, name: string)
    requires dir != "" && dir[|dir| - 1] != '/' && PlainName(name)
    ensures var p := Join(dir, name);
            NextBack(p, BodyStart(p)) == Some((|dir| + 1, |p|))
  {
    var p := Join(dir, name);
    var lo := BodyStart(p);
    BodyStartOfJoin(dir, name);
    assert p[|dir|] == '/';
    CompStartAt(p, lo, |dir| + 1);
    assert p[|dir| + 1..] == name;
  }

  /** The parent of `dir/name` is `dir` with its own trailing separators and
      `.` stretches dropped. */
  lemma ParentOfJoin(dir: string, name: string)
    requires dir != "" && dir[|dir| - 1] != '/' && PlainName(name)
    ensures Parent(Join(dir, name)) == Some(dir[..TrimRight(dir, BodyStart(dir))])
  {
    var p := Join(dir, name);
    NextBackOfJoin(dir, name);
    BodyStartOfJoin(dir, name);
    PrefixOfJoin(dir, name);
    ParentAfter(p, |dir| + 1);
  }

  lemma PrefixOfJoin(dir: string, name: string)
    requires dir != "" && dir[|dir| - 1] != '/' && PlainName(name)
    ensures Join(dir, name)[..|dir|] == dir
    ensures Before(|dir| + 1, BodyStart(dir)) == |dir|
  {
    assert Join(dir, name) == dir + "/" + name;
  }

  /** `parent` once the last component is known to start at `s`. */
  lemma ParentAfter(p: string, s: nat)
    requires var last := NextBack(p, BodyStart(p)); last.Some? && last.value.0 == s
    ensures var lo := BodyStart(p); var q := p[..Before(s, lo)];
            Parent(p) == Some(q[..TrimRight(q, lo)])
  {
    var lo := BodyStart(p);
    var last := NextBack(p, lo);
    var q := p[..Before(last.value.0, lo)];
    var n := TrimRight(q, lo);
    assert Parent(p) == Some(p[..n]);
    assert q[..n] == p[..n];
  }

  /** A settled directory is the parent of each of its entries. */
  lemma ParentOfSettledJoin(dir: string, name: string)
    requires Settled(dir) && PlainName(name)
    ensures Parent(Join(dir, name)) == Some(dir)
  {
    ParentOfJoin(dir, name);
    assert dir[..|dir|] == dir;
  }

  /** A directory named by joining an ordinary name is settled. */
  lemma SettledJoin(dir: string, name: string)
    requires dir != "" && dir[|dir| - 1] != '/' && PlainName(name)
    ensures Settled(Join(dir, name))
  {
    var p := Join(dir, name);
    BodyStartOfJoin(dir, name);
    assert p[|dir|] == '/';
    CompStartAt(p, BodyStart(p), |dir| + 1);
    assert p[|dir| + 1..] == name;
  }

  /** The file name of `dir/name` is `name`. */
  lemma FileNameOfJoin(dir: string, name: string)
    requires dir != "" && dir[|dir| - 1] != '/' && PlainName(name)
    ensures var p := Join(dir, name);
            FileName(p) == Some((|dir| + 1, |p|)) && p[|dir| + 1..] == name
  {
    NextBackOfJoin(dir, name);
    var p := Join(dir, name);
    assert p[|dir| + 1..] == name;
  }

  /** The stem of an ordinary name does not start with a separator. */
  lemma StemRelative(name: string, ext: string)
    requires PlainName(name)
    ensures !IsAbsolute(Stem(name) + "." + ext)
  {
    var stem := Stem(name);
    assert (stem + "." + ext)[0] == stem[0] == name[0];
  }

  /** Setting the extension of `dir/name` replaces the extension of `name`. */
  lemma SetExtensionOfJoin(dir: string, name: string, ext: string)
    requires dir != "" && dir[|dir| - 1] != '/' && PlainName(name) && ext != ""
    ensures SetExtension(Join(dir, name), ext) == Join(dir, Stem(name) + "." + ext)
  {
    var p := Join(dir, name);
    var stem := Stem(name);
    assert SetExtension(p, ext) == (dir + "/") + stem + ("." + ext) by {
      FileNameOfJoin(dir, name);
      assert p[|dir| + 1..|p|] == name;
      assert p[..|dir| + 1] == dir + "/";
    }
    assert Join(dir, stem + "." + ext) == dir + "/" + (stem + "." + ext) by {
      StemRelative(name, ext);
    }
    ConcatRegroup(dir + "/", stem, ".", ext);
  }

  lemma ConcatRegroup(a: string, b: string, c: string, d: string)
    ensures a + b + (c + d) == a + (b + c + d)
  {
  }

  /** The root and the empty path have no parent. */
  lemma NoParent()
    ensures Parent("") == None && Parent("/") == None
  {
    assert NextBack("/", 1) == None;
  }
}
