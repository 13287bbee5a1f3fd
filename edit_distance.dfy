/** OCRService.levenshteinDistance: the unit-cost edit distance, computed by
    filling a (|s1| + 1) x (|s2| + 1) table row by row.

    Cell is the recurrence the table follows and Distance its bottom-right
    cell.  The method is proved to fill every cell with Cell and so to return
    Distance, and Distance is proved to be the least cost of any sequence of
    insertions, deletions and substitutions that turns the first string into
    the second, which is what Levenshtein distance means. */
module EditDistance {

  import opened Wrappers

  function Min3(a: nat, b: nat, c: nat): (m: nat)
    ensures m <= a && m <= b && m <= c
    ensures m == a || m == b || m == c
  {
    if a <= b && a <= c then a else if b <= c then b else c
  }

  /** The substitution cost of the table: 0 for equal characters, 1 otherwise. */
  function Cost(x: char, y: char): nat {
    if x == y then 0 else 1
  }

  /** The recurrence of the table: the edges are the lengths, an inner entry
      is the least of deleting s1[i - 1], inserting s2[j - 1], or matching the
      two. */
  function Recurrence(s1: string, s2: string, i: nat, j: nat): nat
    requires i <= |s1| && j <= |s2|
    decreases i + j
  {
    if i == 0 then j
    else if j == 0 then i
    else
      Min3(Recurrence(s1, s2, i - 1, j) + 1,
           Recurrence(s1, s2, i, j - 1) + 1,
           Recurrence(s1, s2, i - 1, j - 1) + Cost(s1[i - 1], s2[j - 1]))
  }

  /** Cell (i, j) of the table.  Contracts speak of Cell rather than of the
      recurrence itself, so that the verifier unfolds the recurrence only one
      step at a time. */
  function Cell(s1: string, s2: string, i: nat, j: nat): nat
    requires i <= |s1| && j <= |s2|
  {
    Recurrence(s1, s2, i, j)
  }

  /** The value levenshteinDistance returns: the bottom-right cell. */
  function Distance(a: string, b: string): nat {
    Cell(a, b, |a|, |b|)
  }

  /** levenshteinDistance: the table `d` with d[i, 0] = i, d[0, j] = j and the
      min(delete + 1, insert + 1, substitute + cost) recurrence, returning the
      bottom-right cell. */
  method LevenshteinDistance(s1: string, s2: string) returns (dist: nat)
    ensures dist == Distance(s1, s2)
  {
    var len1, len2 := |s1|, |s2|;
    var d := new nat[len1 + 1, len2 + 1];
    for i := 0 to len1 + 1
      invariant forall i' :: 0 <= i' < i ==> d[i', 0] == i'
    {
      d[i, 0] := i;
    }
    for j := 0 to len2 + 1
      invariant forall i' :: 1 <= i' <= len1 ==> d[i', 0] == i'
      invariant forall j' :: 0 <= j' < j ==> d[0, j'] == j'
    {
      d[0, j] := j;
    }
    for i := 1 to len1 + 1
      invariant forall i', j' {:trigger d[i', j']} :: 0 <= i' < i && 0 <= j' <= len2 ==> d[i', j'] == Cell(s1, s2, i', j')
      invariant forall i' :: i <= i' <= len1 ==> d[i', 0] == i'
    {
      for j := 1 to len2 + 1
        invariant forall i', j' {:trigger d[i', j']} :: 0 <= i' < i && 0 <= j' <= len2 ==> d[i', j'] == Cell(s1, s2, i', j')
        invariant forall j' {:trigger d[i, j']} :: 0 <= j' < j ==> d[i, j'] == Cell(s1, s2, i, j')
        invariant forall i' :: i < i' <= len1 ==> d[i', 0] == i'
      {
        var cost := if s1[i - 1] == s2[j - 1] then 0 else 1;
        d[i, j] := Min3(d[i - 1, j] + 1, d[i, j - 1] + 1, d[i - 1, j - 1] + cost);
      }
    }
    dist := d[len1, len2];
  }

  /** A cell depends only on the characters before it. */
  lemma {:induction false} CellOfPrefixes(s1: string, s2: string, t1: string, t2: string, i: nat, j: nat)
    requires i <= |s1| && i <= |t1| && j <= |s2| && j <= |t2|
    requires forall k :: 0 <= k < i ==> s1[k] == t1[k]
    requires forall k :: 0 <= k < j ==> s2[k] == t2[k]
    ensures Cell(s1, s2, i, j) == Cell(t1, t2, i, j)
    decreases i + j
  {
    if i > 0 && j > 0 {
      CellOfPrefixes(s1, s2, t1, t2, i - 1, j);
      CellOfPrefixes(s1, s2, t1, t2, i, j - 1);
      CellOfPrefixes(s1, s2, t1, t2, i - 1, j - 1);
    }
  }

  /** The recurrence, read on whole strings: dropping the last character of
      either string, or of both. */
  lemma DistanceStep(a: string, b: string)
    requires |a| > 0 && |b| > 0
    ensures Distance(a, b) ==
            Min3(Distance(a[..|a| - 1], b) + 1,
                 Distance(a, b[..|b| - 1]) + 1,
                 Distance(a[..|a| - 1], b[..|b| - 1]) + Cost(a[|a| - 1], b[|b| - 1]))
  {
    var a', b' := a[..|a| - 1], b[..|b| - 1];
    CellOfPrefixes(a, b, a', b, |a'|, |b|);
    CellOfPrefixes(a, b, a, b', |a|, |b'|);
    CellOfPrefixes(a, b, a', b', |a'|, |b'|);
  }

  lemma {:induction false} CellSelf(a: string, i: nat)
    requires i <= |a|
    ensures Cell(a, a, i, i) == 0
  {
    if i > 0 {
      CellSelf(a, i - 1);
    }
  }

  /** A cell is 0 exactly when the two prefixes are equal. */
  lemma {:induction false} CellZeroIff(a: string, b: string, i: nat, j: nat)
    requires i <= |a| && j <= |b|
    ensures Cell(a, b, i, j) == 0 <==> a[..i] == b[..j]
    decreases i + j
  {
    if a[..i] == b[..j] {
      assert forall k :: 0 <= k < i ==> a[k] == a[..i][k];
      CellOfPrefixes(a, b, a, a, i, j);
      CellSelf(a, i);
    } else if i > 0 && j > 0 {
      CellZeroIff(a, b, i - 1, j - 1);
      assert a[..i] == a[..i - 1] + [a[i - 1]];
      assert b[..j] == b[..j - 1] + [b[j - 1]];
    }
  }

  /** Distance 0 means equal strings, so Distance(a, b) == 0 exactly when a == b. */
  lemma DistanceZeroIffEqual(a: string, b: string)
    ensures Distance(a, b) == 0 <==> a == b
  {
    CellZeroIff(a, b, |a|, |b|);
    assert a[..|a|] == a && b[..|b|] == b;
  }

  /** From or to the empty string the distance is the other length. */
  lemma DistanceFromEmpty(a: string, b: string)
    ensures Distance("", b) == |b|
    ensures Distance(a, "") == |a|
  {
  }

  lemma {:induction false} CellSymmetric(a: string, b: string, i: nat, j: nat)
    requires i <= |a| && j <= |b|
    ensures Cell(a, b, i, j) == Cell(b, a, j, i)
    decreases i + j
  {
    if i > 0 && j > 0 {
      CellSymmetric(a, b, i - 1, j);
      CellSymmetric(a, b, i, j - 1);
      CellSymmetric(a, b, i - 1, j - 1);
    }
  }

  /** The distance is symmetric in its two inputs. */
  lemma DistanceSymmetric(a: string, b: string)
    ensures Distance(a, b) == Distance(b, a)
  {
    CellSymmetric(a, b, |a|, |b|);
  }

  function Max(x: nat, y: nat): nat {
    if x >= y then x else y
  }

  lemma {:induction false} CellBounds(a: string, b: string, i: nat, j: nat)
    requires i <= |a| && j <= |b|
    ensures Cell(a, b, i, j) <= Max(i, j)
    ensures Cell(a, b, i, j) >= i - j && Cell(a, b, i, j) >= j - i
    decreases i + j
  {
    if i > 0 && j > 0 {
      CellBounds(a, b, i - 1, j);
      CellBounds(a, b, i, j - 1);
      CellBounds(a, b, i - 1, j - 1);
    }
  }

  /** The distance is at most the longer length and at least the difference
      of the lengths. */
  lemma DistanceBounds(a: string, b: string)
    ensures Distance(a, b) <= Max(|a|, |b|)
    ensures Distance(a, b) >= |a| - |b| && Distance(a, b) >= |b| - |a|
  {
    CellBounds(a, b, |a|, |b|);
  }

  // ----- Edit scripts: the meaning of Distance -----

  /** One step of an edit script.  A script is read from its end: its last
      step deals with the last character of the source and/or of the target. */
  datatype Edit = Keep | Substitute(c: char) | Insert(c: char) | Delete

  /** Runs a script from its last step backwards. */
  function Run(script: seq<Edit>, a: string): Option<string>
    decreases |script|
  {
    if script == [] then (if a == [] then Some([]) else None)
    else
      var rest := script[..|script| - 1];
      match script[|script| - 1]
      case Insert(c) =>
        (match Run(rest, a) case Some(b) => Some(b + [c]) case None => None)
      case Keep =>
        if a == [] then None
        else (match Run(rest, a[..|a| - 1]) case Some(b) => Some(b + [a[|a| - 1]]) case None => None)
      case Substitute(c) =>
        if a == [] then None
        else (match Run(rest, a[..|a| - 1]) case Some(b) => Some(b + [c]) case None => None)
      case Delete =>
        if a == [] then None else Run(rest, a[..|a| - 1])
  }

  /** The string a script produces from `a`, if the script fits `a`; like
      Cell, a name over the recursion so that proofs unfold it one step at a
      time. */
  function Apply(script: seq<Edit>, a: string): Option<string> {
    Run(script, a)
  }

  /** The number of steps that are not Keep. */
  function ScriptCost(script: seq<Edit>): nat {
    if script == [] then 0
    else ScriptCost(script[..|script| - 1]) + (if script[|script| - 1] == Keep then 0 else 1)
  }

  /** A script that realises the distance, following the recurrence's choices. */
  function CheapestScript(a: string, b: string): (script: seq<Edit>)
    ensures Apply(script, a) == Some(b)
    ensures ScriptCost(script) == Distance(a, b)
    decreases |a| + |b|
  {
    if |a| == 0 && |b| == 0 then []
    else if |a| == 0 then
      var p := CheapestScript(a, b[..|b| - 1]);
      InsertLast(p, a, b);
      p + [Insert(b[|b| - 1])]
    else if |b| == 0 then
      var p := CheapestScript(a[..|a| - 1], b);
      DeleteLast(p, a, b);
      p + [Delete]
    else
      var a', b' := a[..|a| - 1], b[..|b| - 1];
      DistanceStep(a, b);
      var del, ins := Distance(a', b) + 1, Distance(a, b') + 1;
      var sub := Distance(a', b') + Cost(a[|a| - 1], b[|b| - 1]);
      if del <= ins && del <= sub then
        var p := CheapestScript(a', b);
        DeleteLast(p, a, b);
        p + [Delete]
      else if ins <= sub then
        var p := CheapestScript(a, b');
        InsertLast(p, a, b);
        p + [Insert(b[|b| - 1])]
      else
        var p := CheapestScript(a', b');
        MatchLast(p, a, b);
        p + [MatchStep(a[|a| - 1], b[|b| - 1])]
  }

  /** How the last characters are matched: kept when equal, else substituted. */
  function MatchStep(x: char, y: char): Edit {
    if x == y then Keep else Substitute(y)
  }

  /** A script ending in Delete drops the last character of the source. */
  lemma DeleteLast(p: seq<Edit>, a: string, b: string)
    requires |a| > 0 && Apply(p, a[..|a| - 1]) == Some(b)
    ensures Apply(p + [Delete], a) == Some(b)
    ensures ScriptCost(p + [Delete]) == ScriptCost(p) + 1
  {
    assert (p + [Delete])[..|p|] == p;
    ScriptCostSnoc(p, Delete);
  }

  /** A script ending in Insert(c) appends c to the target. */
  lemma InsertLast(p: seq<Edit>, a: string, b: string)
    requires |b| > 0 && Apply(p, a) == Some(b[..|b| - 1])
    ensures Apply(p + [Insert(b[|b| - 1])], a) == Some(b)
    ensures ScriptCost(p + [Insert(b[|b| - 1])]) == ScriptCost(p) + 1
  {
    assert (p + [Insert(b[|b| - 1])])[..|p|] == p;
    assert b == b[..|b| - 1] + [b[|b| - 1]];
    ScriptCostSnoc(p, Insert(b[|b| - 1]));
  }

  /** A script ending in Keep or Substitute matches the two last characters. */
  lemma MatchLast(p: seq<Edit>, a: string, b: string)
    requires |a| > 0 && |b| > 0 && Apply(p, a[..|a| - 1]) == Some(b[..|b| - 1])
    ensures Apply(p + [MatchStep(a[|a| - 1], b[|b| - 1])], a) == Some(b)
    ensures ScriptCost(p + [MatchStep(a[|a| - 1], b[|b| - 1])]) == ScriptCost(p) + Cost(a[|a| - 1], b[|b| - 1])
  {
    var e := MatchStep(a[|a| - 1], b[|b| - 1]);
    assert (p + [e])[..|p|] == p && (p + [e])[|p|] == e;
    assert b == b[..|b| - 1] + [b[|b| - 1]];
    var b' := Apply(p, a[..|a| - 1]).value;
    ScriptCostSnoc(p, e);
    if a[|a| - 1] == b[|b| - 1] {
      assert Apply(p + [e], a) == Some(b' + [a[|a| - 1]]);
    } else {
      assert Apply(p + [e], a) == Some(b' + [b[|b| - 1]]);
    }
  }

  /** Appending a step adds its cost. */
  lemma ScriptCostSnoc(p: seq<Edit>, e: Edit)
    ensures ScriptCost(p + [e]) == ScriptCost(p) + (if e == Keep then 0 else 1)
  {
    assert (p + [e])[..|p|] == p;
  }

  /** No script is cheaper than the distance. */
  lemma {:induction false} ScriptCostAtLeastDistance(script: seq<Edit>, a: string, b: string)
    requires Apply(script, a) == Some(b)
    ensures ScriptCost(script) >= Distance(a, b)
    decreases |script|
  {
    if script == [] {
    } else {
      var rest := script[..|script| - 1];
      if |a| > 0 && |b| > 0 {
        DistanceStep(a, b);
      }
      match script[|script| - 1]
      case Insert(c) =>
        var b' := Apply(rest, a).value;
        assert b == b' + [c] && b[..|b| - 1] == b';
        ScriptCostAtLeastDistance(rest, a, b');
      case Keep =>
        var a' := a[..|a| - 1];
        var b' := Apply(rest, a').value;
        assert b == b' + [a[|a| - 1]] && b[..|b| - 1] == b';
        ScriptCostAtLeastDistance(rest, a', b');
      case Substitute(c) =>
        var a' := a[..|a| - 1];
        var b' := Apply(rest, a').value;
        assert b == b' + [c] && b[..|b| - 1] == b';
        ScriptCostAtLeastDistance(rest, a', b');
      case Delete =>
        ScriptCostAtLeastDistance(rest, a[..|a| - 1], b);
    }
  }
}
