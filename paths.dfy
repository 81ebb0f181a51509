/** Ruby's `File.basename(location, ".*")` on POSIX paths: the now-playing label
    is the last path component without its extension. */
module Paths {
  import opened Wrappers

  predicate AllSlashes(s: string) {
    forall i :: 0 <= i < |s| ==> s[i] == '/'
  }

  /** `s` without the '/' characters it ends with. */
  function DropTrailingSlashes(s: string): (r: string)
    ensures r <= s && AllSlashes(s[|r|..])
    ensures r == [] || r[|r| - 1] != '/'
  {
    if s != [] && s[|s| - 1] == '/' then DropTrailingSlashes(s[..|s| - 1]) else s
  }

  /** The part of `s` after its last '/'. */
  function AfterLastSlash(s: string): (r: string)
    ensures |r| <= |s|
    ensures forall i :: 0 <= i < |r| ==> r[i] != '/'
    ensures |r| < |s| ==> s[|s| - |r| - 1] == '/'
  {
    if s == [] || s[|s| - 1] == '/' then [] else AfterLastSlash(s[..|s| - 1]) + [s[|s| - 1]]
  }

  /** How many '.' characters `s` starts with. */
  function LeadingDots(s: string): (k: nat)
    ensures k <= |s| && (k < |s| ==> s[k] != '.')
    ensures forall i :: 0 <= i < k ==> s[i] == '.'
  {
    if s != [] && s[0] == '.' then 1 + LeadingDots(s[1..]) else 0
  }

  /** The index of the last '.' of `s` at or after index `from`, if any. */
  function LastDotFrom(s: string, from: nat): (r: Option<nat>)
    ensures r.Some? ==> from <= r.value < |s| && s[r.value] == '.'
    ensures r.Some? ==> forall i :: r.value < i < |s| ==> s[i] != '.'
    ensures r.None? ==> forall i :: from <= i < |s| ==> s[i] != '.'
  {
    if |s| <= from then None
    else if s[|s| - 1] == '.' then Some(|s| - 1)
    else LastDotFrom(s[..|s| - 1], from)
  }

  /** A path component without its extension: the dots it starts with are
      kept, and it is cut at the last '.' that follows them, if any. */
  function WithoutExtension(name: string): (r: string)
    ensures r <= name
    ensures r == name <==> forall i :: LeadingDots(name) <= i < |name| ==> name[i] != '.'
    ensures r != name ==> && LeadingDots(name) <= |r|
                          && name[|r|] == '.'
                          && forall i :: |r| < i < |name| ==> name[i] != '.'
  {
    match LastDotFrom(name, LeadingDots(name))
    case None => name
    case Some(e) => name[..e]
  }

  /** `File.basename(path, ".*")`: an empty path stays empty, a path of
      slashes only gives "/", otherwise the last component (trailing slashes
      ignored) without its extension. */
  function Basename(path: string): (r: string)
    ensures r == "/" <==> path != [] && AllSlashes(path)
    ensures r == "/" || forall i :: 0 <= i < |r| ==> r[i] != '/'
  {
    if path == [] then []
    else if AllSlashes(path) then "/"
    else WithoutExtension(AfterLastSlash(DropTrailingSlashes(path)))
  }

  /** The last component is the end of the path. */
  lemma {:induction false} AfterLastSlashIsSuffix(s: string)
    ensures AfterLastSlash(s) == s[|s| - |AfterLastSlash(s)|..]
  {
    if s != [] && s[|s| - 1] != '/' {
      var init := s[..|s| - 1];
      AfterLastSlashIsSuffix(init);
      var r := AfterLastSlash(init);
      assert init[|init| - |r|..] + [s[|s| - 1]] == s[|init| - |r|..];
    }
  }

  /** A character other than '/' extends the last component. */
  lemma AfterLastSlashSnoc(s: string, c: char)
    requires c != '/'
    ensures AfterLastSlash(s + [c]) == AfterLastSlash(s) + [c]
  {
    assert (s + [c])[..|s|] == s;
  }

  lemma {:induction false} AfterLastSlashOfName(dir: string, name: string)
    requires dir == [] || dir[|dir| - 1] == '/'
    requires forall i :: 0 <= i < |name| ==> name[i] != '/'
    ensures AfterLastSlash(dir + name) == name
  {
    if name == [] {
      assert dir + name == dir;
    } else {
      var last := |name| - 1;
      var init := name[..last];
      assert AfterLastSlash(dir + init) == init by {
        AfterLastSlashOfName(dir, init);
      }
      assert dir + name == (dir + init) + [name[last]] && init + [name[last]] == name;
      AfterLastSlashSnoc(dir + init, name[last]);
    }
  }

  /** Slashes after a name that does not end in '/' are dropped. */
  lemma {:induction false} DropTrailingSlashesOf(s: string, trail: string)
    requires s != [] && s[|s| - 1] != '/' && AllSlashes(trail)
    ensures DropTrailingSlashes(s + trail) == s
    decreases |trail|
  {
    if trail == [] {
      assert s + trail == s;
    } else {
      var init := trail[..|trail| - 1];
      assert (s + trail)[..|s + trail| - 1] == s + init;
      DropTrailingSlashesOf(s, init);
    }
  }

  /** The label of a location `dir + name + trail`, where `name` is a last
      component and `trail` only slashes, is `name` without its extension: cut
      at its last '.' after its leading dots, or whole when there is none. */
  lemma BasenameOfComponent(dir: string, name: string, trail: string)
    requires dir == [] || dir[|dir| - 1] == '/'
    requires name != [] && forall i :: 0 <= i < |name| ==> name[i] != '/'
    requires AllSlashes(trail)
    ensures Basename(dir + name + trail) == WithoutExtension(name)
  {
    var path := dir + name + trail;
    assert path[|dir|] == name[0];
    assert !AllSlashes(path);
    assert path == (dir + name) + trail;
    DropTrailingSlashesOf(dir + name, trail);
    AfterLastSlashOfName(dir, name);
  }

  lemma NotAllSlashes(path: string, i: nat)
    requires i < |path| && path[i] != '/' && path[|path| - 1] != '/'
    ensures Basename(path) == WithoutExtension(AfterLastSlash(path))
  {
    assert !AllSlashes(path);
    assert DropTrailingSlashes(path) == path;
  }

  lemma StemOfName(stem: string, ext: string)
    requires stem != [] && stem[0] != '.'
    requires forall i :: 0 <= i < |ext| ==> ext[i] != '.'
    ensures WithoutExtension(stem + "." + ext) == stem
  {
    var name := stem + "." + ext;
    assert LeadingDots(name) == 0;
    assert name[|stem|] == '.';
    assert forall i :: |stem| < i < |name| ==> name[i] == ext[i - |stem| - 1];
    assert LastDotFrom(name, 0) == Some(|stem|);
    assert name[..|stem|] == stem;
  }

  /** The label of a track stored as `dir + stem + "." + ext`, where the
      extension holds neither '/' nor '.', is its stem. */
  lemma BasenameOfFile(dir: string, stem: string, ext: string)
    requires dir == [] || dir[|dir| - 1] == '/'
    requires stem != [] && stem[0] != '.'
    requires forall i :: 0 <= i < |stem| ==> stem[i] != '/'
    requires forall i :: 0 <= i < |ext| ==> ext[i] != '/' && ext[i] != '.'
    ensures Basename(dir + stem + "." + ext) == stem
  {
    var name := stem + "." + ext;
    assert forall i :: 0 <= i < |name| ==> name[i] != '/';
    assert dir + stem + "." + ext == dir + name;
    var path := dir + name;
    assert path[|dir|] == stem[0];
    NotAllSlashes(path, |dir|);
    AfterLastSlashOfName(dir, name);
    StemOfName(stem, ext);
  }

  /** A hidden file keeps its whole name: its leading dots are not an extension. */
  lemma BasenameOfDotfile(dir: string, name: string)
    requires dir == [] || dir[|dir| - 1] == '/'
    requires |name| >= 2 && name[0] == '.' && name[1] != '.'
    requires forall i :: 0 <= i < |name| ==> name[i] != '/'
    requires forall i :: 1 <= i < |name| ==> name[i] != '.'
    ensures Basename(dir + name) == name
  {
    var path := dir + name;
    assert path[|path| - 1] != '/';
    assert path[|dir| + 1] == name[1];
    assert !AllSlashes(path);
    assert DropTrailingSlashes(path) == path;
    AfterLastSlashOfName(dir, name);
    assert LeadingDots(name[1..]) == 0;
    assert LeadingDots(name) == 1;
  }
}
