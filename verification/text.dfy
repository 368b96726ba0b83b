/**
 * The GLib string helpers the tools rely on, over Dafny strings: prefix and
 * suffix tests, `g_strjoinv(" ", …)`, the space splitting that undoes it, and
 * `g_build_filename` for a directory and one relative name.
 */
module Text {
  import opened Wrappers

  /** `g_str_has_prefix(s, p)`. */
  predicate HasPrefix(s: string, p: string) {
    |p| <= |s| && s[..|p|] == p
  }

  /** `g_str_has_suffix(s, x)`. */
  predicate HasSuffix(s: string, x: string) {
    |x| <= |s| && s[|s| - |x|..] == x
  }

  /** The position of the first `c` in `s`, as `g_strstr_len` / `strchr` find it. */
  function IndexOf(s: string, c: char): (r: Option<nat>)
    ensures r.Some? ==> r.value < |s| && s[r.value] == c
    ensures r.Some? ==> forall j :: 0 <= j < r.value ==> s[j] != c
    ensures r.None? ==> forall j :: 0 <= j < |s| ==> s[j] != c
  {
    if s == [] then None
    else if s[0] == c then Some(0)
    else match IndexOf(s[1..], c)
      case None => None
      case Some(k) => Some(k + 1)
  }

  /** `g_strjoinv(" ", parts)`: the elements in order, one space between neighbours. */
  function JoinSpace(parts: seq<string>): (r: string)
    ensures |parts| > 0 ==> HasSuffix(r, parts[|parts| - 1])
    ensures |r| >= |parts| - 1
  {
    if |parts| == 0 then ""
    else if |parts| == 1 then parts[0]
    else parts[0] + " " + JoinSpace(parts[1..])
  }

  /** Cutting a string at every space (the inverse of `JoinSpace` on space-free parts). */
  function SplitSpace(s: string): (r: seq<string>)
    ensures |r| > 0
    decreases |s|
  {
    match IndexOf(s, ' ')
    case None => [s]
    case Some(i) => [s[..i]] + SplitSpace(s[i + 1..])
  }

  predicate NoSpace(s: string) {
    forall j :: 0 <= j < |s| ==> s[j] != ' '
  }

  /** The joined command begins with the first element of the vector, then a space if more follow. */
  lemma {:induction false} JoinSpaceHead(parts: seq<string>)
    requires |parts| > 0
    ensures HasPrefix(JoinSpace(parts), parts[0])
    ensures |parts| > 1 ==> HasPrefix(JoinSpace(parts), parts[0] + " ")
  {
    if |parts| > 1 {
      var rest := JoinSpace(parts[1..]);
      assert JoinSpace(parts) == (parts[0] + " ") + rest;
      assert (parts[0] + " " + rest)[..|parts[0]|] == parts[0];
    }
  }

  /** Joining is associative over concatenation of non-empty vectors. */
  lemma {:induction false} JoinSpaceAppend(a: seq<string>, b: seq<string>)
    requires |a| > 0 && |b| > 0
    ensures JoinSpace(a + b) == JoinSpace(a) + " " + JoinSpace(b)
    decreases |a|
  {
    if |a| == 1 {
      assert (a + b)[1..] == b;
    } else {
      assert (a + b)[1..] == a[1..] + b;
      JoinSpaceAppend(a[1..], b);
    }
  }

  /** Round trip: when no argument contains a space, the recorded command splits back into the vector. */
  lemma {:induction false} SplitJoinSpace(parts: seq<string>)
    requires |parts| > 0
    requires forall k :: 0 <= k < |parts| ==> NoSpace(parts[k])
    ensures SplitSpace(JoinSpace(parts)) == parts
    decreases |parts|
  {
    if |parts| == 1 {
      assert IndexOf(parts[0], ' ').None?;
    } else {
      var head, rest := parts[0], JoinSpace(parts[1..]);
      var s := head + " " + rest;
      assert s == JoinSpace(parts);
      assert forall j :: 0 <= j < |head| ==> s[j] == head[j];
      assert s[|head|] == ' ';
      var idx := IndexOf(s, ' ');
      assert forall j :: 0 <= j < |head| ==> s[j] != ' ';
      assert idx.Some? && idx.value == |head|;
      assert s[..|head|] == head;
      assert s[|head| + 1..] == rest;
      SplitJoinSpace(parts[1..]);
    }
  }

  /** `dir` without its trailing `/` characters. */
  function TrimTrailingSeparators(dir: string): (r: string)
    ensures HasPrefix(dir, r)
    ensures r == [] || r[|r| - 1] != '/'
    ensures forall j :: |r| <= j < |dir| ==> dir[j] == '/'
  {
    if dir == [] || dir[|dir| - 1] != '/' then dir
    else TrimTrailingSeparators(dir[..|dir| - 1])
  }

  /**
   * `g_build_filename(dir, name, NULL)` for a non-empty `name` without
   * separators at either end: an empty `dir` is dropped; a `dir` made only of
   * separators is kept as it is, leading separators being copied verbatim;
   * otherwise the directory loses its trailing separators and the two are
   * joined with exactly one `/`.
   */
  function BuildFilename(dir: string, name: string): (r: string)
    ensures dir == "" ==> r == name
    ensures dir != "" ==> HasSuffix(r, "/" + name)
    ensures HasPrefix(r, TrimTrailingSeparators(dir))
    ensures dir != "" && (forall j :: 0 <= j < |dir| ==> dir[j] == '/') ==> r == dir + name
    ensures (exists j :: 0 <= j < |dir| && dir[j] != '/') ==>
      exists k :: 0 < k <= |dir| && r == dir[..k] + "/" + name && dir[k - 1] != '/' &&
                  (forall j :: k <= j < |dir| ==> dir[j] == '/')
  {
    if dir == "" then name
    else
      var head := TrimTrailingSeparators(dir);
      assert dir[..|head|] == head;
      if head == "" then
        assert dir[|dir| - 1] == '/';
        assert dir + name == dir[..|dir| - 1] + "/" + name;
        var r := dir + name;
        assert r[|r| - |"/" + name|..] == "/" + name;
        r
      else
        var r := head + "/" + name;
        assert r[|r| - |"/" + name|..] == "/" + name;
        assert r[..|head|] == head;
        r
  }
}
