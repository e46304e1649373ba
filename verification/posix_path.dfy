/**
 * POSIX path normalisation as Python's `os.path.normpath` does it on Linux
 * (`posixpath.normpath`): split on `/`, drop empty and `.` components, let
 * `..` cancel the component before it, keep a leading run of `..` in a
 * relative path, and keep one or two leading slashes (three or more count as one).
 */
module PosixPath {
  import opened Text

  /** How many leading slashes the result keeps: exactly two stay two, one or three and more become one. */
  function RootSlashes(p: string): (k: nat)
    ensures k <= 2
    ensures k == 0 <==> !StartsWith(p, "/")
  {
    if StartsWith(p, "//") && !StartsWith(p, "///") then 2
    else if StartsWith(p, "/") then 1
    else 0
  }

  function Slashes(k: nat): string
    requires k <= 2
  {
    if k == 0 then "" else if k == 1 then "/" else "//"
  }

  /** One turn of normpath's loop: `acc` is the list of components kept so far. */
  function Step(acc: seq<string>, c: string, rooted: bool): seq<string>
  {
    if c == "" || c == "." then acc
    else if c != ".." || (!rooted && acc == []) || (acc != [] && acc[|acc| - 1] == "..") then acc + [c]
    else if acc != [] then acc[..|acc| - 1]
    else acc
  }

  /** The whole loop of normpath over the components `comps`, starting from `acc`. */
  function Resolve(comps: seq<string>, rooted: bool, acc: seq<string>): (r: seq<string>)
    ensures |r| <= |acc| + |comps|
    ensures forall i :: 0 <= i < |r| ==> r[i] in acc || r[i] in comps
    decreases |comps|
  {
    if comps == [] then acc else Resolve(comps[1..], rooted, Step(acc, comps[0], rooted))
  }

  /** `os.path.normpath(p)` */
  function NormPath(p: string): (r: string)
    ensures r != ""
  {
    if p == "" then "."
    else
      var k := RootSlashes(p);
      var r := Slashes(k) + JoinWith(Resolve(SplitOn(p, "/"), k > 0, []), "/");
      if r == "" then "." else r
  }

  /**
   * The normal form normpath produces: no empty, `.` or slash-containing
   * component, and `..` only in a leading run of a relative path.
   */
  ghost predicate IsNormal(segs: seq<string>, rooted: bool)
  {
    forall i :: 0 <= i < |segs| ==>
      && segs[i] != ""
      && segs[i] != "."
      && '/' !in segs[i]
      && (segs[i] == ".." ==> !rooted && forall j :: 0 <= j < i ==> segs[j] == "..")
  }

  lemma OccursSlash(x: string)
    ensures Occurs(x, "/") <==> '/' in x
  {
    if '/' in x {
      var i :| 0 <= i < |x| && x[i] == '/';
      assert StartsWith(x[i..], "/");
    }
    if Occurs(x, "/") {
      var i :| 0 <= i <= |x| - 1 && StartsWith(x[i..], "/");
      assert x[i..][0] == x[i];
    }
  }

  /** The components of a split on `/` contain no `/`. */
  lemma SplitSlashPieces(p: string)
    ensures forall k :: 0 <= k < |SplitOn(p, "/")| ==> '/' !in SplitOn(p, "/")[k]
  {
    SplitPiecesFree(p, "/");
    forall k | 0 <= k < |SplitOn(p, "/")|
      ensures '/' !in SplitOn(p, "/")[k]
    {
      OccursSlash(SplitOn(p, "/")[k]);
    }
  }

  lemma StepKeepsNormal(acc: seq<string>, c: string, rooted: bool)
    requires IsNormal(acc, rooted) && '/' !in c
    ensures IsNormal(Step(acc, c, rooted), rooted)
  {
    var r := Step(acc, c, rooted);
    if c != "" && c != "." && c == ".." && acc != [] && acc[|acc| - 1] == ".." {
      forall i | 0 <= i < |r|
        ensures r[i] == ".." ==> !rooted && forall j :: 0 <= j < i ==> r[j] == ".."
      {
        if i == |acc| {
          assert acc[|acc| - 1] == "..";
        }
      }
    }
  }

  lemma {:induction false} ResolveKeepsNormal(comps: seq<string>, rooted: bool, acc: seq<string>)
    requires IsNormal(acc, rooted)
    requires forall k :: 0 <= k < |comps| ==> '/' !in comps[k]
    ensures IsNormal(Resolve(comps, rooted, acc), rooted)
    decreases |comps|
  {
    if comps != [] {
      StepKeepsNormal(acc, comps[0], rooted);
      ResolveKeepsNormal(comps[1..], rooted, Step(acc, comps[0], rooted));
    }
  }

  /** normpath's loop leaves components that are already in normal form as they are. */
  lemma {:induction false} ResolveNormalFixpoint(segs: seq<string>, rooted: bool, acc: seq<string>)
    requires IsNormal(acc + segs, rooted)
    ensures Resolve(segs, rooted, acc) == acc + segs
    decreases |segs|
  {
    if segs != [] {
      var all := acc + segs;
      assert all[|acc|] == segs[0];
      if segs[0] == ".." && acc != [] {
        assert all[|acc| - 1] == acc[|acc| - 1];
      }
      assert Step(acc, segs[0], rooted) == acc + [segs[0]];
      assert (acc + [segs[0]]) + segs[1..] == all;
      ResolveNormalFixpoint(segs[1..], rooted, acc + [segs[0]]);
    }
  }

  lemma {:induction false} SplitWithoutSlash(a: string)
    requires '/' !in a
    ensures SplitOn(a, "/") == [a]
    decreases |a|
  {
    if a != [] {
      SplitWithoutSlash(a[1..]);
      assert [a[0]] + a[1..] == a;
    }
  }

  lemma {:induction false} SplitAfterComponent(a: string, t: string)
    requires '/' !in a
    ensures SplitOn(a + "/" + t, "/") == [a] + SplitOn(t, "/")
    decreases |a|
  {
    var s := a + "/" + t;
    if a == [] {
      assert s[1..] == t;
    } else {
      SplitAfterComponent(a[1..], t);
      assert s[1..] == a[1..] + "/" + t;
      assert [a[0]] + a[1..] == a;
    }
  }

  /** Joining components that hold no `/` and splitting again gives them back. */
  lemma {:induction false} SplitJoinComponents(segs: seq<string>)
    requires |segs| >= 1
    requires forall k :: 0 <= k < |segs| ==> '/' !in segs[k]
    ensures SplitOn(JoinWith(segs, "/"), "/") == segs
    decreases |segs|
  {
    if |segs| == 1 {
      SplitWithoutSlash(segs[0]);
    } else {
      SplitJoinComponents(segs[1..]);
      SplitAfterComponent(segs[0], JoinWith(segs[1..], "/"));
    }
  }

  lemma JoinStartsWithFirst(segs: seq<string>, sep: string)
    requires |segs| >= 1
    ensures StartsWith(JoinWith(segs, sep), segs[0])
  {
  }

  /** What normpath keeps of a non-empty path is in normal form. */
  lemma NormPathComponents(p: string)
    requires p != ""
    ensures IsNormal(Resolve(SplitOn(p, "/"), RootSlashes(p) > 0, []), RootSlashes(p) > 0)
  {
    SplitSlashPieces(p);
    ResolveKeepsNormal(SplitOn(p, "/"), RootSlashes(p) > 0, []);
  }

  /** normpath of a path that does not start with `/` does not start with `/` either. */
  lemma NormPathRelative(p: string)
    requires !StartsWith(p, "/")
    ensures !StartsWith(NormPath(p), "/")
  {
    if p == "" {
      assert NormPath(p) == ".";
    } else {
      var segs := Resolve(SplitOn(p, "/"), false, []);
      NormPathComponents(p);
      if segs == [] {
        assert NormPath(p) == ".";
      } else {
        JoinStartsWithFirst(segs, "/");
        assert NormPath(p) == JoinWith(segs, "/");
        assert JoinWith(segs, "/")[0] == segs[0][0];
      }
    }
  }

  /** The root slashes in front of a relative path are exactly the ones normpath keeps. */
  lemma RootSlashesOf(k: nat, body: string)
    requires k <= 2 && body != [] && body[0] != '/'
    ensures RootSlashes(Slashes(k) + body) == k
  {
    var q := Slashes(k) + body;
    if k == 0 {
      assert q == body && q[..1][0] != '/';
    } else if k == 1 {
      assert q[1] != '/';
    } else if k == 2 {
      assert q == "//" + body;
      assert q[..2] == "//";
      assert StartsWith(q, "//");
      assert q[2] == body[0];
      assert !StartsWith(q, "///") by {
        assert q[..3][2] == body[0];
        assert "///"[2] == '/';
      }
      assert RootSlashes(q) == 2;
    }
  }

  /** The empty components the root slashes produce are dropped by the loop. */
  lemma {:induction false} ResolveBehindRoot(k: nat, body: string, rooted: bool)
    requires 1 <= k <= 2
    ensures Resolve(SplitOn(Slashes(k) + body, "/"), rooted, []) == Resolve(SplitOn(body, "/"), rooted, [])
  {
    var q := Slashes(k) + body;
    SplitAfterComponent("", body);
    assert "" + "/" + body == "/" + body;
    var once := SplitOn("/" + body, "/");
    assert once == [""] + SplitOn(body, "/");
    assert once[1..] == SplitOn(body, "/");
    if k == 2 {
      SplitAfterComponent("", "/" + body);
      assert "" + "/" + ("/" + body) == q;
      var comps := SplitOn(q, "/");
      assert comps == [""] + once;
      assert comps[1..] == once;
    }
  }

  /** A path already written as normal components behind its root slashes is its own normal form. */
  lemma NormPathOfNormal(k: nat, segs: seq<string>)
    requires k <= 2 && segs != [] && IsNormal(segs, k > 0)
    ensures NormPath(Slashes(k) + JoinWith(segs, "/")) == Slashes(k) + JoinWith(segs, "/")
  {
    var body := JoinWith(segs, "/");
    SplitJoinComponents(segs);
    JoinStartsWithFirst(segs, "/");
    assert body[0] == segs[0][0] && body[0] != '/';
    RootSlashesOf(k, body);
    ResolveNormalFixpoint(segs, k > 0, []);
    assert [] + segs == segs;
    var q := Slashes(k) + body;
    if k > 0 {
      ResolveBehindRoot(k, body, true);
      assert Resolve(SplitOn(q, "/"), true, []) == Resolve(segs, true, []);
    } else {
      assert q == body;
    }
    assert Resolve(SplitOn(q, "/"), k > 0, []) == segs;
    assert NormPath(q) == Slashes(k) + body;
  }

  /** normpath is idempotent: a normalised path is its own normal form. */
  lemma NormPathIdempotent(p: string)
    ensures NormPath(NormPath(p)) == NormPath(p)
  {
    if p == "" {
      SplitWithoutSlash(".");
    } else {
      var k := RootSlashes(p);
      var segs := Resolve(SplitOn(p, "/"), k > 0, []);
      NormPathComponents(p);
      if segs == [] {
        if k == 0 {
          assert NormPath(p) == ".";
          SplitWithoutSlash(".");
        } else if k == 1 {
          assert NormPath(p) == "/";
          assert SplitOn("/", "/") == ["", ""];
        } else {
          assert NormPath(p) == "//";
          assert SplitOn("//", "/") == ["", "", ""];
        }
      } else {
        NormPathOfNormal(k, segs);
      }
    }
  }
}
