/** The distance that command suggestions are ranked by, and the edits it counts. */
module EditDistance {
  function Min(a: nat, b: nat): nat { if a < b then a else b }

  function Front(s: string): string
    requires s != ""
  {
    s[..|s| - 1]
  }

  function Last(s: string): char
    requires s != ""
  {
    s[|s| - 1]
  }

  function Cost(x: char, y: char): nat { if x == y then 0 else 1 }

  function Distance(a: string, b: string): nat
    decreases |a| + |b|
  {
    if a == "" then |b|
    else if b == "" then |a|
    else
      Min(Min(Distance(Front(a), b) + 1, Distance(a, Front(b)) + 1),
          Distance(Front(a), Front(b)) + Cost(Last(a), Last(b)))
  }

  lemma EmptyDistance(a: string, b: string)
    ensures a == "" ==> Distance(a, b) == |b|
    ensures b == "" ==> Distance(a, b) == |a|
  {
  }

  lemma CellDistance(a: string, b: string, i: nat, j: nat)
    requires 1 <= i <= |a| && 1 <= j <= |b|
    ensures Distance(a[..i], b[..j]) ==
            Min(Min(Distance(a[..i - 1], b[..j]) + 1, Distance(a[..i], b[..j - 1]) + 1),
                Distance(a[..i - 1], b[..j - 1]) + Cost(a[i - 1], b[j - 1]))
  {
    assert Front(a[..i]) == a[..i - 1] && Front(b[..j]) == b[..j - 1];
  }

  /** Two rows, of which the older is overwritten by the next. */
  method LevenshteinDistance(a: string, b: string) returns (distance: nat)
    ensures distance == Distance(a, b)
  {
    hide Distance;
    EmptyDistance(a, b);
    var n, m := |a|, |b|;
    if n == 0 {
      return m;
    }
    if m == 0 {
      return n;
    }
    var prev := new nat[m + 1];
    var curr := new nat[m + 1];
    for j := 0 to m + 1
      invariant forall k :: 0 <= k < j ==> prev[k] == k
    {
      prev[j] := j;
    }
    forall k | 0 <= k <= m
      ensures Distance(a[..0], b[..k]) == k
    {
      EmptyDistance(a[..0], b[..k]);
    }
    for i := 1 to n + 1
      invariant prev != curr && prev.Length == m + 1 && curr.Length == m + 1 && fresh(prev) && fresh(curr)
      invariant forall k :: 0 <= k <= m ==> prev[k] == Distance(a[..i - 1], b[..k])
    {
      curr[0] := i;
      EmptyDistance(a[..i], b[..0]);
      for j := 1 to m + 1
        invariant forall k :: 0 <= k <= m ==> prev[k] == Distance(a[..i - 1], b[..k])
        invariant forall k :: 0 <= k < j ==> curr[k] == Distance(a[..i], b[..k])
      {
        CellDistance(a, b, i, j);
        var cost := if a[i - 1] == b[j - 1] then 0 else 1;
        var aVal := prev[j] + 1;
        var bVal := curr[j - 1] + 1;
        var cVal := prev[j - 1] + cost;
        curr[j] := if aVal < bVal then (if aVal < cVal then aVal else cVal) else (if bVal < cVal then bVal else cVal);
      }
      prev, curr := curr, prev;
    }
    assert a[..n] == a && b[..m] == b;
    return prev[m];
  }

  // ---- what one edit is ----

  ghost predicate IsInsertion(s: string, t: string) {
    exists i, c :: 0 <= i <= |s| && t == s[..i] + [c] + s[i..]
  }

  ghost predicate IsSubstitution(s: string, t: string) {
    exists i, c :: 0 <= i < |s| && t == s[..i] + [c] + s[i + 1..]
  }

  /** One character inserted, deleted or replaced. */
  ghost predicate OneEdit(s: string, t: string) {
    IsInsertion(s, t) || IsInsertion(t, s) || IsSubstitution(s, t)
  }

  /** k edits turn a into b. */
  ghost predicate Edits(a: string, b: string, k: nat)
    decreases k
  {
    if k == 0 then a == b else exists c :: OneEdit(a, c) && Edits(c, b, k - 1)
  }

  // ---- the distance is a metric ----

  lemma {:induction false} ZeroIffEqual(a: string, b: string)
    ensures Distance(a, b) == 0 <==> a == b
    decreases |a| + |b|
  {
    if a != "" && b != "" {
      ZeroIffEqual(Front(a), Front(b));
      assert a == Front(a) + [Last(a)] && b == Front(b) + [Last(b)];
    }
  }

  lemma {:induction false} Symmetric(a: string, b: string)
    ensures Distance(a, b) == Distance(b, a)
    decreases |a| + |b|
  {
    if a != "" && b != "" {
      Symmetric(Front(a), b);
      Symmetric(a, Front(b));
      Symmetric(Front(a), Front(b));
    }
  }

  lemma {:induction false} LengthBounds(a: string, b: string)
    ensures |a| <= |b| + Distance(a, b) && |b| <= |a| + Distance(a, b) && Distance(a, b) <= |a| + |b|
    decreases |a| + |b|
  {
    if a != "" && b != "" {
      LengthBounds(Front(a), b);
      LengthBounds(a, Front(b));
      LengthBounds(Front(a), Front(b));
    }
  }

  lemma {:induction false} Triangle(a: string, b: string, c: string)
    ensures Distance(a, c) <= Distance(a, b) + Distance(b, c)
    decreases |a| + |b| + |c|
  {
    LengthBounds(a, b);
    LengthBounds(b, c);
    LengthBounds(a, c);
    if a != "" && b != "" && c != "" {
      Triangle(Front(a), b, c);
      Triangle(a, b, Front(c));
      Triangle(a, Front(b), c);
      Triangle(a, Front(b), Front(c));
      Triangle(Front(a), Front(b), c);
      Triangle(Front(a), Front(b), Front(c));
    }
  }

  // ---- the distance is the least number of edits ----

  lemma {:induction false} InsertionDistance(s: string, c: char, t: string)
    ensures Distance(s + t, s + [c] + t) <= 1
    decreases |t|
  {
    if t == "" {
      assert s + t == s && s + [c] + t == s + [c] && Front(s + [c]) == s;
      ZeroIffEqual(s, s);
    } else {
      assert Front(s + t) == s + Front(t) && Front(s + [c] + t) == s + [c] + Front(t);
      InsertionDistance(s, c, Front(t));
    }
  }

  lemma {:induction false} SubstitutionDistance(s: string, i: nat, c: char)
    requires i < |s|
    ensures Distance(s, s[i := c]) <= 1
    decreases |s|
  {
    var t := s[i := c];
    if i == |s| - 1 {
      assert Front(t) == Front(s);
      ZeroIffEqual(Front(s), Front(t));
    } else {
      assert Front(t) == Front(s)[i := c];
      SubstitutionDistance(Front(s), i, c);
    }
  }

  lemma {:induction false} OneEditDistance(s: string, t: string)
    requires OneEdit(s, t)
    ensures Distance(s, t) <= 1
  {
    if IsInsertion(s, t) {
      var i, c :| 0 <= i <= |s| && t == s[..i] + [c] + s[i..];
      assert s == s[..i] + s[i..];
      InsertionDistance(s[..i], c, s[i..]);
    } else if IsInsertion(t, s) {
      var i, c :| 0 <= i <= |t| && s == t[..i] + [c] + t[i..];
      assert t == t[..i] + t[i..];
      InsertionDistance(t[..i], c, t[i..]);
      Symmetric(s, t);
    } else {
      var i, c :| 0 <= i < |s| && t == s[..i] + [c] + s[i + 1..];
      assert t == s[i := c];
      SubstitutionDistance(s, i, c);
    }
  }

  lemma {:induction false} NoFewerEdits(a: string, b: string, k: nat)
    requires Edits(a, b, k)
    ensures Distance(a, b) <= k
    decreases k
  {
    if k == 0 {
      ZeroIffEqual(a, b);
    } else {
      var c :| OneEdit(a, c) && Edits(c, b, k - 1);
      OneEditDistance(a, c);
      NoFewerEdits(c, b, k - 1);
      Triangle(a, c, b);
    }
  }

  lemma OneEditBefore(s: string, t: string, x: char)
    requires OneEdit(s, t)
    ensures OneEdit(s + [x], t + [x])
  {
    if IsInsertion(s, t) {
      InsertionBefore(s, t, x);
    } else if IsInsertion(t, s) {
      InsertionBefore(t, s, x);
    } else {
      var i, c :| 0 <= i < |s| && t == s[..i] + [c] + s[i + 1..];
      assert t == s[i := c];
      assert (s + [x])[..i] == s[..i] && (s + [x])[i + 1..] == s[i + 1..] + [x];
      assert t + [x] == (s + [x])[..i] + [c] + (s + [x])[i + 1..];
    }
  }

  lemma InsertionBefore(s: string, t: string, x: char)
    requires IsInsertion(s, t)
    ensures IsInsertion(s + [x], t + [x])
  {
    var i, c :| 0 <= i <= |s| && t == s[..i] + [c] + s[i..];
    assert (s + [x])[..i] == s[..i] && (s + [x])[i..] == s[i..] + [x];
    assert t + [x] == (s + [x])[..i] + [c] + (s + [x])[i..];
  }

  lemma {:induction false} EditsBefore(a: string, b: string, k: nat, x: char)
    requires Edits(a, b, k)
    ensures Edits(a + [x], b + [x], k)
    decreases k
  {
    if k > 0 {
      var c :| OneEdit(a, c) && Edits(c, b, k - 1);
      OneEditBefore(a, c, x);
      EditsBefore(c, b, k - 1, x);
    }
  }

  lemma {:induction false} EditsThen(a: string, b: string, c: string, k: nat)
    requires Edits(a, b, k) && OneEdit(b, c)
    ensures Edits(a, c, k + 1)
    decreases k
  {
    if k == 0 {
      assert Edits(c, c, 0);
    } else {
      var d :| OneEdit(a, d) && Edits(d, b, k - 1);
      EditsThen(d, b, c, k - 1);
    }
  }

  lemma EndEdits(s: string, x: char, y: char)
    ensures OneEdit(s, s + [x]) && OneEdit(s + [x], s) && OneEdit(s + [x], s + [y])
  {
    assert s + [x] == s[..|s|] + [x] + s[|s|..];
    assert IsInsertion(s, s + [x]);
    assert s + [y] == (s + [x])[..|s|] + [y] + (s + [x])[|s| + 1..];
    assert IsSubstitution(s + [x], s + [y]);
  }

  lemma FrontAndLast(s: string)
    requires s != ""
    ensures s == Front(s) + [Last(s)]
  {
  }

  lemma DistanceCases(a: string, b: string)
    ensures a == "" && b == "" ==> Distance(a, b) == 0
    ensures a == "" && b != "" ==> Distance(a, b) == Distance(a, Front(b)) + 1
    ensures a != "" && b == "" ==> Distance(a, b) == Distance(Front(a), b) + 1
    ensures a != "" && b != "" ==>
              Distance(a, b) == Distance(Front(a), b) + 1 || Distance(a, b) == Distance(a, Front(b)) + 1 ||
              Distance(a, b) == Distance(Front(a), Front(b)) + Cost(Last(a), Last(b))
  {
  }

  lemma NoEdits(a: string)
    ensures Edits(a, a, 0)
  {
  }

  lemma {:induction false} EnoughEdits(a: string, b: string)
    ensures Edits(a, b, Distance(a, b))
    decreases |a| + |b|
  {
    hide Distance, Front, Last;
    DistanceCases(a, b);
    if a == "" && b == "" {
      NoEdits(a);
    } else if a != "" && Distance(a, b) == Distance(Front(a), b) + 1 {
      FrontAndLast(a);
      EnoughEdits(Front(a), b);
      EndEdits(Front(a), Last(a), Last(a));
    } else if b != "" && Distance(a, b) == Distance(a, Front(b)) + 1 {
      FrontAndLast(b);
      EnoughEdits(a, Front(b));
      EndEdits(Front(b), Last(b), Last(b));
      EditsThen(a, Front(b), b, Distance(a, Front(b)));
    } else {
      FrontAndLast(a);
      FrontAndLast(b);
      EnoughEdits(Front(a), Front(b));
      EditsBefore(Front(a), Front(b), Distance(Front(a), Front(b)), Last(a));
      if Last(a) != Last(b) {
        EndEdits(Front(b), Last(a), Last(b));
        EditsThen(a, Front(b) + [Last(a)], b, Distance(Front(a), Front(b)));
      }
    }
  }

  /** The distance is the least number of single-character edits that turn one string into the other. */
  lemma DistanceIsLeastEdits(a: string, b: string, k: nat)
    ensures Edits(a, b, Distance(a, b))
    ensures Edits(a, b, k) ==> Distance(a, b) <= k
  {
    EnoughEdits(a, b);
    if Edits(a, b, k) {
      NoFewerEdits(a, b, k);
    }
  }
}
