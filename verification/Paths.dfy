/**
 The ancestor directories of a library path, as
 update_trusted_parent_mountpoints in src/agent/bpf_loader.c walks them.
 */
module Paths {

  const PATH_MAX := 4096

  /** Trailing slashes are cut, but a single leading one stays. */
  function Stripped(p: string): (r: string)
    ensures |r| <= |p|
  {
    if |p| > 1 && p[|p| - 1] == '/' then Stripped(p[..|p| - 1]) else p
  }

  /** The position of the last slash, or -1. */
  function LastSlash(p: string): (i: int)
    ensures -1 <= i < |p|
    ensures i >= 0 ==> p[i] == '/'
    ensures forall j :: i < j < |p| ==> p[j] != '/'
  {
    if p == [] then -1
    else if p[|p| - 1] == '/' then |p| - 1
    else LastSlash(p[..|p| - 1])
  }

  /** Where the component starting at i ends: the next slash, or the end. */
  function End(dir: string, i: nat): (e: nat)
    requires i <= |dir|
    ensures i <= e <= |dir|
    ensures e < |dir| ==> dir[e] == '/'
    ensures forall j :: i <= j < e ==> dir[j] != '/'
    decreases |dir| - i
  {
    if i == |dir| || dir[i] == '/' then i else End(dir, i + 1)
  }

  /** The non-empty components of dir from position i on. */
  function Components(dir: string, i: nat): (cs: seq<string>)
    decreases |dir| - i
  {
    if i >= |dir| then []
    else
      var e := End(dir, i);
      (if e == i then [] else [dir[i..e]]) + Components(dir, e + 1)
  }

  /** The absolute path made of the given components. */
  function Join(cs: seq<string>): string {
    if cs == [] then "" else Join(cs[..|cs| - 1]) + "/" + cs[|cs| - 1]
  }

  /** The directories the walk visits: "/a", "/a/b", ... down to dir itself. */
  function Ancestors(dir: string): (ps: seq<string>)
    ensures |ps| == |Components(dir, 1)|
    ensures forall k :: 0 <= k < |ps| ==> ps[k] == Join(Components(dir, 1)[..k + 1])
  {
    var cs := Components(dir, 1);
    seq(|cs|, k requires 0 <= k < |cs| => Join(cs[..k + 1]))
  }

  /** The directories counted for a library path; none when its parent is the root, no answer for a malformed path. */
  function Parents(path: string): (r: (bool, seq<string>)) {
    var p := Stripped(path);
    if |path| == 0 || |path| >= PATH_MAX || LastSlash(p) < 0 then (false, [])
    else (true, Ancestors(p[..LastSlash(p)]))
  }

  // ----- components, independently of the walk

  lemma FirstComponent(dir: string, i: nat)
    requires i < |dir|
    ensures var e := End(dir, i);
            Components(dir, i) == (if e == i then [] else [dir[i..e]]) + Components(dir, e + 1)
  {
  }

  lemma NoComponents(dir: string, i: nat)
    requires i >= |dir|
    ensures Components(dir, i) == []
  {
  }

  /** A name without a slash is one component. */
  lemma OneComponent(dir: string, i: nat)
    requires i < |dir| && forall j :: i <= j < |dir| ==> dir[j] != '/'
    ensures Components(dir, i) == [dir[i..]]
  {
    hide Components, End;
    FirstComponent(dir, i);
    NoComponents(dir, |dir| + 1);
    assert dir[i..|dir|] == dir[i..];
  }

  lemma EndInFront(dir: string, i: nat, j: nat)
    requires i <= j < |dir| && dir[j] == '/'
    ensures End(dir[..j], i) == End(dir, i) <= j
  {
    hide End;
    var d, e := End(dir[..j], i), End(dir, i);
    assert d < |dir[..j]| ==> dir[d] == '/';
    assert forall k :: i <= k < d ==> dir[k] == dir[..j][k];
  }

  /** A slash separates the components before it from those after it, so repeated slashes do not matter. */
  lemma {:induction false} SlashSplits(dir: string, i: nat, j: nat)
    requires i <= j < |dir| && dir[j] == '/'
    ensures Components(dir, i) == Components(dir[..j], i) + Components(dir, j + 1)
    decreases |dir| - i
  {
    hide Components, End;
    var e, front := End(dir, i), dir[..j];
    EndInFront(dir, i, j);
    FirstComponent(dir, i);
    if i == j {
      NoComponents(front, i);
    } else {
      FirstComponent(front, i);
      var head := if e == i then [] else [dir[i..e]];
      assert front[i..e] == dir[i..e];
      if e == j {
        NoComponents(front, j + 1);
        assert head + [] == head;
      } else {
        SlashSplits(dir, e + 1, j);
        assert head + (Components(front, e + 1) + Components(dir, j + 1))
               == head + Components(front, e + 1) + Components(dir, j + 1);
      }
    }
  }

  lemma {:induction false} StrippedComponents(p: string)
    requires p != ""
    ensures Stripped(p) != "" && Stripped(p)[0] == p[0] && Components(Stripped(p), 1) == Components(p, 1)
    ensures |Stripped(p)| > 1 ==> Stripped(p)[|Stripped(p)| - 1] != '/'
  {
    hide Components;
    var n := |p| - 1;
    if n > 0 && p[n] == '/' {
      StrippedComponents(p[..n]);
      SlashSplits(p, 1, n);
      NoComponents(p, n + 1);
      assert Components(p[..n], 1) + [] == Components(p[..n], 1);
    }
  }

  /** The components of an absolute path without trailing slash are those of its parent and its last name. */
  lemma LastName(p: string)
    requires p != "" && p[0] == '/' && (|p| > 1 ==> p[|p| - 1] != '/')
    ensures LastSlash(p) >= 0
    ensures var cs, ps := Components(p, 1), Components(p[..LastSlash(p)], 1);
            if |p| == 1 then cs == [] == ps else cs == ps + [p[LastSlash(p) + 1..]]
  {
    hide Components, LastSlash;
    var ls := LastSlash(p);
    if |p| == 1 {
      NoComponents(p, 1);
      NoComponents(p[..ls], 1);
    } else {
      if ls == 0 {
        OneComponent(p, 1);
        NoComponents(p[..0], 1);
      } else {
        SlashSplits(p, 1, ls);
        OneComponent(p, ls + 1);
      }
    }
  }

  /**
   The directories counted for an absolute path are the proper prefixes of its
   components: "/a", "/a/b", ... but not the library itself, however many
   slashes stand between, before or after them.
   */
  lemma ParentsAreProperPrefixes(path: string)
    requires 0 < |path| < PATH_MAX && path[0] == '/'
    ensures var cs, ps := Components(path, 1), Parents(path).1;
            && Parents(path).0 && |ps| == (if cs == [] then 0 else |cs| - 1)
            && forall k :: 0 <= k < |ps| ==> ps[k] == Join(cs[..k + 1])
  {
    hide Components, Stripped, Join;
    var p := Stripped(path);
    StrippedComponents(path);
    LastName(p);
    var cs, ds := Components(path, 1), Components(p[..LastSlash(p)], 1);
    var ps := Parents(path).1;
    forall k | 0 <= k < |ps| ensures ps[k] == Join(cs[..k + 1]) {
      assert cs[..k + 1] == ds[..k + 1];
    }
  }

  /** Empty paths, paths that do not fit the buffer and paths without a slash have no answer. */
  lemma MalformedHaveNoParents(path: string)
    ensures Parents(path).0 ==> 0 < |path| < 4096 && '/' in path
  {
    if path != "" {
      StrippedPrefix(path);
    }
  }

  lemma {:induction false} StrippedPrefix(p: string)
    ensures Stripped(p) <= p
  {
    if |p| > 1 && p[|p| - 1] == '/' {
      StrippedPrefix(p[..|p| - 1]);
    }
  }

  /** Components and Join are inverse on proper names. */
  lemma {:induction false} ComponentsOfJoin(cs: seq<string>)
    requires forall i :: 0 <= i < |cs| ==> cs[i] != "" && '/' !in cs[i]
    ensures Components(Join(cs), 1) == cs && (cs == [] || (Join(cs) != "" && Join(cs)[0] == '/'))
  {
    hide Components;
    if cs == [] {
      NoComponents("", 1);
    } else {
      var n := |cs| - 1;
      ComponentsOfJoin(cs[..n]);
      LastJoined(Join(cs[..n]), cs[n]);
      assert cs == cs[..n] + [cs[n]];
    }
  }

  lemma LastJoined(front: string, last: string)
    requires (front == "" || front[0] == '/') && last != "" && '/' !in last
    ensures var p := front + "/" + last;
            p[0] == '/' && Components(p, 1) == (if front == "" then [] else Components(front, 1)) + [last]
  {
    hide Components;
    var p, j := front + "/" + last, |front|;
    assert p[j] == '/' && p[j + 1..] == last && p[..j] == front;
    assert forall i :: j + 1 <= i < |p| ==> p[i] == last[i - j - 1];
    OneComponent(p, j + 1);
    if front != "" {
      SlashSplits(p, 1, j);
    }
  }

  // ----- the walk

  /** The walk stands at position p of dir with k ancestors behind it, the last one being `prefix`. */
  ghost predicate Standing(dir: string, p: nat, prefix: string, k: nat) {
    var cs := Components(dir, 1);
    && 1 <= p <= |dir| + 1 && |prefix| <= p - 1 && k <= |cs|
    && Components(dir, p) == cs[k..] && prefix == Join(cs[..k])
  }

  lemma StandingStart(dir: string)
    requires dir != ""
    ensures Standing(dir, 1, "", 0)
  {
  }

  lemma TakeComponent(dir: string, p: nat, prefix: string, k: nat)
    requires Standing(dir, p, prefix, k) && p < |dir| && End(dir, p) > p
    ensures k < |Ancestors(dir)| && Ancestors(dir)[k] == prefix + "/" + dir[p..End(dir, p)]
    ensures Standing(dir, End(dir, p) + 1, prefix + "/" + dir[p..End(dir, p)], k + 1)
  {
    var cs, e := Components(dir, 1), End(dir, p);
    assert Components(dir, p)[0] == dir[p..e];
    assert cs[k] == dir[p..e];
    assert cs[k + 1..] == cs[k..][1..];
    assert Components(dir, p)[1..] == Components(dir, e + 1);
    assert cs[..k + 1][..k] == cs[..k];
  }

  /** Builds the next ancestor into the prefix buffer, skipping empty components; the buffer never overflows. */
  method Advance(dir: string, p: nat, prefix: string, ghost k: nat) returns (found: bool, q: nat, next: string)
    requires |dir| < PATH_MAX && Standing(dir, p, prefix, k)
    ensures found <==> k < |Ancestors(dir)|
    ensures found ==> next == Ancestors(dir)[k] && Standing(dir, q, next, k + 1)
  {
    q := p;
    while q < |dir|
      invariant Standing(dir, q, prefix, k)
    {
      var e := End(dir, q);
      if e == q {
        q := q + 1;
        continue;
      }
      assert |prefix| + 1 + (e - q) < PATH_MAX;
      TakeComponent(dir, q, prefix, k);
      return true, e + 1, prefix + "/" + dir[q..e];
    }
    return false, q, prefix;
  }
}
