/**
 * The few string operations of Python's `str` that the scraper relies on:
 * `startswith`, `replace`, `split`, `join` and `lstrip`.
 */
module Text {

  /** `s.startswith(p)` */
  predicate StartsWith(s: string, p: string)
  {
    |p| <= |s| && s[..|p|] == p
  }

  /** `p` occurs somewhere in `s` (`p in s`). */
  predicate Occurs(s: string, p: string)
  {
    exists i :: 0 <= i <= |s| - |p| && StartsWith(s[i..], p)
  }

  /**
   * `s.replace(p, rep)` for a non-empty pattern: scan from the left and
   * replace every non-overlapping occurrence of `p` by `rep`. The result is
   * Python's identity `s.replace(p, rep) == rep.join(s.split(p))`.
   */
  function ReplaceAll(s: string, p: string, rep: string): (r: string)
    requires p != ""
    ensures r == JoinWith(SplitOn(s, p), rep)
    decreases |s|
  {
    if s == [] then []
    else if StartsWith(s, p) then
      var rest := SplitOn(s[|p|..], p);
      assert SplitOn(s, p) == [""] + rest;
      assert ([""] + rest)[1..] == rest;
      rep + ReplaceAll(s[|p|..], p, rep)
    else
      var rest := SplitOn(s[1..], p);
      assert rest == [rest[0]] + rest[1..];
      JoinWithConsFirst(s[0], rest[0], rest[1..], rep);
      [s[0]] + ReplaceAll(s[1..], p, rep)
  }

  /** `s.split(p)` for a non-empty separator: the pieces between leftmost non-overlapping occurrences. */
  function SplitOn(s: string, p: string): (pieces: seq<string>)
    requires p != ""
    ensures |pieces| >= 1
    decreases |s|
  {
    if s == [] then [""]
    else if StartsWith(s, p) then [""] + SplitOn(s[|p|..], p)
    else
      var rest := SplitOn(s[1..], p);
      [[s[0]] + rest[0]] + rest[1..]
  }

  /** `sep.join(pieces)` */
  function JoinWith(pieces: seq<string>, sep: string): string
  {
    if |pieces| == 0 then ""
    else if |pieces| == 1 then pieces[0]
    else pieces[0] + sep + JoinWith(pieces[1..], sep)
  }

  /** `s.lstrip(chars)`: drop every leading character that belongs to `chars`. */
  function LStrip(s: string, chars: set<char>): (r: string)
    ensures |r| <= |s| && r == s[|s| - |r|..]
    ensures r == [] || r[0] !in chars
    ensures forall i :: 0 <= i < |s| - |r| ==> s[i] in chars
  {
    if s != [] && s[0] in chars then
      var r := LStrip(s[1..], chars);
      assert s[1..][|s| - 1 - |r|..] == s[|s| - |r|..];
      r
    else s
  }

  lemma JoinWithConsFirst(c: char, x: string, tail: seq<string>, sep: string)
    ensures JoinWith([[c] + x] + tail, sep) == [c] + JoinWith([x] + tail, sep)
  {
    var a, b := [[c] + x] + tail, [x] + tail;
    assert a[1..] == tail && b[1..] == tail;
  }

  /** Replacing a pattern by itself changes nothing. */
  lemma {:induction false} ReplaceBySelf(s: string, p: string)
    requires p != ""
    ensures ReplaceAll(s, p, p) == s
    decreases |s|
  {
    if s == [] {
    } else if StartsWith(s, p) {
      ReplaceBySelf(s[|p|..], p);
      assert s == s[..|p|] + s[|p|..];
    } else {
      ReplaceBySelf(s[1..], p);
      assert s == [s[0]] + s[1..];
    }
  }

  /** Splitting on `p` and joining back with `p` gives the text back. */
  lemma SplitJoinRoundTrip(s: string, p: string)
    requires p != ""
    ensures JoinWith(SplitOn(s, p), p) == s
  {
    ReplaceBySelf(s, p);
  }

  /** The first piece of a split is a prefix of the text. */
  lemma {:induction false} SplitFirstIsPrefix(s: string, p: string)
    requires p != ""
    ensures StartsWith(s, SplitOn(s, p)[0])
    decreases |s|
  {
    if s != [] && !StartsWith(s, p) {
      SplitFirstIsPrefix(s[1..], p);
    }
  }

  /** No piece of a split contains the separator: the cuts are at every occurrence. */
  lemma {:induction false} SplitPiecesFree(s: string, p: string)
    requires p != ""
    ensures forall k :: 0 <= k < |SplitOn(s, p)| ==> !Occurs(SplitOn(s, p)[k], p)
    decreases |s|
  {
    var pieces := SplitOn(s, p);
    if s == [] {
      assert pieces == [""];
    } else if StartsWith(s, p) {
      SplitPiecesFree(s[|p|..], p);
      assert pieces == [""] + SplitOn(s[|p|..], p);
    } else {
      SplitPiecesFree(s[1..], p);
      SplitFirstIsPrefix(s[1..], p);
      var rest := SplitOn(s[1..], p);
      var first := [s[0]] + rest[0];
      assert pieces == [first] + rest[1..];
      forall i | 0 <= i <= |first| - |p|
        ensures !StartsWith(first[i..], p)
      {
        if i == 0 {
          assert first[..|p|] == s[..|p|];
        } else {
          assert first[i..] == rest[0][i - 1..];
        }
      }
      forall k | 1 <= k < |pieces|
        ensures !Occurs(pieces[k], p)
      {
        assert pieces[k] == rest[k];
      }
    }
  }

  /** Text without any occurrence of the pattern is left as it is. */
  lemma {:induction false} ReplaceWithoutOccurrence(s: string, p: string, r: string)
    requires p != "" && !Occurs(s, p)
    ensures ReplaceAll(s, p, r) == s
    decreases |s|
  {
    if s != [] {
      assert s[0..] == s;
      forall i | 0 <= i <= |s[1..]| - |p|
        ensures !StartsWith(s[1..][i..], p)
      {
        assert s[1..][i..] == s[i + 1..];
      }
      ReplaceWithoutOccurrence(s[1..], p, r);
    }
  }

  lemma PrefixOfPrefix(t: string, q: string, p: string)
    requires StartsWith(p, q)
    ensures StartsWith(t, p) ==> StartsWith(t, q)
  {
    if StartsWith(t, p) {
      assert t[..|q|] == t[..|p|][..|q|];
    }
  }

  /** A text that never contains `q` never contains a longer pattern that starts with `q`. */
  lemma AbsentPrefixAbsent(s: string, q: string, p: string)
    requires !Occurs(s, q) && StartsWith(p, q)
    ensures !Occurs(s, p)
  {
    forall i | 0 <= i <= |s| - |p|
      ensures !StartsWith(s[i..], p)
    {
      PrefixOfPrefix(s[i..], q, p);
    }
  }

  /** One of the two strings is a prefix of the other: they agree as far as both go. */
  predicate Overlaps(a: string, b: string)
  {
    StartsWith(a, b) || StartsWith(b, a)
  }

  /**
   * No occurrence of `q` can start inside `r`, and none can start before `r`
   * and run into it: `r` never overlaps `q` from any of its positions, and no
   * tail of `q` overlaps `r`.
   */
  predicate Apart(r: string, q: string)
  {
    && (forall i :: 0 <= i < |r| ==> !Overlaps(r[i..], q))
    && (forall j :: 0 <= j < |q| ==> !Overlaps(r, q[j..]))
  }

  /** Two prefixes of one text overlap. */
  lemma PrefixesOverlap(t: string, a: string, b: string)
    requires StartsWith(t, a) && StartsWith(t, b)
    ensures Overlaps(a, b)
  {
    if |a| <= |b| {
      assert b[..|a|] == t[..|b|][..|a|];
    } else {
      assert a[..|b|] == t[..|a|][..|b|];
    }
  }

  /** An occurrence in a tail of the text is an occurrence in the text. */
  lemma OccursInTail(s: string, k: nat, q: string)
    requires k <= |s| && Occurs(s[k..], q)
    ensures Occurs(s, q)
  {
    var i :| 0 <= i <= |s[k..]| - |q| && StartsWith(s[k..][i..], q);
    assert s[k..][i..] == s[k + i..];
  }

  /**
   * When the replacement stays apart from `q`, the result starts with a tail
   * of `q` only where the text already did.
   */
  lemma {:induction false} ReplaceStarts(s: string, p: string, r: string, q: string)
    requires p != "" && Apart(r, q)
    ensures forall j :: 0 <= j < |q| && StartsWith(ReplaceAll(s, p, r), q[j..]) ==> StartsWith(s, q[j..])
    decreases |s|
  {
    var t := ReplaceAll(s, p, r);
    if s == [] {
    } else if StartsWith(s, p) {
      forall j | 0 <= j < |q| && StartsWith(t, q[j..])
        ensures false
      {
        assert StartsWith(t, r) by { assert t[..|r|] == r; }
        PrefixesOverlap(t, r, q[j..]);
      }
    } else {
      ReplaceStarts(s[1..], p, r, q);
      var t' := ReplaceAll(s[1..], p, r);
      assert t == [s[0]] + t';
      forall j | 0 <= j < |q| && StartsWith(t, q[j..])
        ensures StartsWith(s, q[j..])
      {
        assert s[0] == t[0] == q[j];
        if j + 1 < |q| {
          assert q[j + 1..] == q[j..][1..];
          assert t'[..|q[j + 1..]|] == t[1..|q[j..]|];
          assert StartsWith(s[1..], q[j + 1..]);
          assert s[..|q[j..]|] == [s[0]] + s[1..][..|q[j + 1..]|];
        } else {
          assert q[j..] == [q[j]];
        }
      }
    }
  }

  /**
   * A replacement that stays apart from `q` leaves no occurrence of `q` behind
   * when the text had none, or when `q` is the pattern being replaced.
   */
  lemma {:induction false} ReplaceLeavesNone(s: string, p: string, r: string, q: string)
    requires p != "" && q != "" && Apart(r, q)
    requires !Occurs(s, q) || q == p
    ensures !Occurs(ReplaceAll(s, p, r), q)
    decreases |s|
  {
    var t := ReplaceAll(s, p, r);
    if s == [] {
    } else if StartsWith(s, p) {
      var t' := ReplaceAll(s[|p|..], p, r);
      if Occurs(s[|p|..], q) {
        OccursInTail(s, |p|, q);
      }
      ReplaceLeavesNone(s[|p|..], p, r, q);
      assert t == r + t';
      forall i | 0 <= i <= |t| - |q|
        ensures !StartsWith(t[i..], q)
      {
        if i < |r| {
          assert StartsWith(t[i..], r[i..]) by { assert t[i..][..|r[i..]|] == r[i..]; }
          if StartsWith(t[i..], q) {
            PrefixesOverlap(t[i..], r[i..], q);
          }
        } else {
          assert t[i..] == t'[i - |r|..];
        }
      }
    } else {
      var t' := ReplaceAll(s[1..], p, r);
      if Occurs(s[1..], q) {
        OccursInTail(s, 1, q);
      }
      ReplaceLeavesNone(s[1..], p, r, q);
      ReplaceStarts(s, p, r, q);
      assert t == [s[0]] + t';
      forall i | 0 <= i <= |t| - |q|
        ensures !StartsWith(t[i..], q)
      {
        if i == 0 {
          assert t[0..] == t && q[0..] == q && s[0..] == s;
        } else {
          assert t[i..] == t'[i - 1..];
        }
      }
    }
  }

  /** A head none of whose characters starts the pattern passes through unchanged. */
  lemma {:induction false} ReplaceAfterHead(x: string, s: string, p: string, r: string)
    requires p != ""
    requires forall i :: 0 <= i < |x| ==> x[i] != p[0]
    ensures ReplaceAll(x + s, p, r) == x + ReplaceAll(s, p, r)
    decreases |x|
  {
    if x == [] {
      assert x + s == s && x + ReplaceAll(s, p, r) == ReplaceAll(s, p, r);
    } else {
      var xs := x + s;
      assert xs[0] == x[0];
      assert !StartsWith(xs, p) by {
        if |p| <= |xs| {
          assert xs[..|p|][0] == xs[0];
        }
      }
      assert xs[1..] == x[1..] + s;
      ReplaceAfterHead(x[1..], s, p, r);
      assert x + ReplaceAll(s, p, r) == [x[0]] + (x[1..] + ReplaceAll(s, p, r));
    }
  }


  /** The pattern alone becomes the replacement alone. */
  lemma ReplaceWhole(p: string, r: string)
    requires p != ""
    ensures ReplaceAll(p, p, r) == r
  {
    assert p[|p|..] == [];
  }
}
