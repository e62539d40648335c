/** Matching brackets, by counting: the reference that the two stack scans of the editor are proved against. */
module Brackets {

  datatype Kind = Open | Close | Comma | Other

  /** Openers minus closers among the tokens from `i` up to but not including `j`. */
  function Excess(s: seq<Kind>, i: nat, j: nat): int
    requires i <= j <= |s|
    decreases j - i
  {
    if i == j then 0
    else Excess(s, i, j - 1) + match s[j - 1] { case Open => 1 case Close => -1 case _ => 0 }
  }

  /** `i` is an opener, and nothing up to `j` closes it. */
  ghost predicate Pending(s: seq<Kind>, i: nat, j: nat) {
    i < j <= |s| && s[i].Open? && forall k: nat :: i < k <= j ==> Excess(s, i, k) >= 1
  }

  /** `j` is the closer of `i`. */
  ghost predicate IsMatch(s: seq<Kind>, i: nat, j: nat) {
    j < |s| && Pending(s, i, j) && s[j].Close? && Excess(s, i, j) == 1
  }

  /** `k` is a comma inside the bracket opened at `i`, and inside no deeper one. */
  ghost predicate IsCommaOf(s: seq<Kind>, i: nat, k: nat) {
    k < |s| && Pending(s, i, k) && s[k].Comma? && Excess(s, i, k) == 1
  }

  /** A closer that no opener matches. */
  ghost predicate IsStrayCloser(s: seq<Kind>, j: nat) {
    j < |s| && s[j].Close? && forall i: nat :: !IsMatch(s, i, j)
  }

  /** An opener that no closer matches. */
  ghost predicate IsStrayOpener(s: seq<Kind>, i: nat) {
    i < |s| && s[i].Open? && forall j: nat :: !IsMatch(s, i, j)
  }

  lemma {:induction false} ExcessSum(s: seq<Kind>, i: nat, j: nat, k: nat)
    requires i <= j <= k <= |s|
    ensures Excess(s, i, k) == Excess(s, i, j) + Excess(s, j, k)
    decreases k - j
  {
    if j < k {
      ExcessSum(s, i, j, k - 1);
    }
  }

  /** An opener is pending one token later unless that token closes it. */
  lemma PendingStep(s: seq<Kind>, i: nat, j: nat)
    requires i < j < |s|
    ensures Pending(s, i, j + 1) <==> Pending(s, i, j) && Excess(s, i, j + 1) >= 1
  {
  }

  lemma PendingStart(s: seq<Kind>, i: nat)
    requires i < |s| && s[i].Open?
    ensures Pending(s, i, i + 1) && Excess(s, i, i + 1) == 1
  {
    assert Excess(s, i, i) == 0;
  }

  /** Of two pending openers the outer one has the larger excess. */
  lemma OuterHasMore(s: seq<Kind>, i: nat, i': nat, j: nat)
    requires i < i' && Pending(s, i, j) && Pending(s, i', j)
    ensures Excess(s, i, j) > Excess(s, i', j)
  {
    ExcessSum(s, i, i', j);
  }

  /** A matched opener is not pending after its closer, and the other way round. */
  lemma MatchEndsPending(s: seq<Kind>, i: nat, j: nat, k: nat)
    requires IsMatch(s, i, j) && j < k <= |s|
    ensures !Pending(s, i, k)
  {
    assert Excess(s, i, j + 1) == 0;
  }

  lemma {:induction false} PendingOrMatched(s: seq<Kind>, i: nat, k: nat)
    requires i < k <= |s| && s[i].Open?
    ensures Pending(s, i, k) || exists j: nat :: j < k && IsMatch(s, i, j)
    decreases k
  {
    if k == i + 1 {
      PendingStart(s, i);
    } else {
      PendingOrMatched(s, i, k - 1);
      if Pending(s, i, k - 1) {
        PendingStep(s, i, k - 1);
        if Excess(s, i, k) < 1 {
          assert Excess(s, i, k - 1) >= 1;
          assert IsMatch(s, i, k - 1);
        }
      }
    }
  }

  /** Stray openers are those pending at the end. */
  lemma StrayOpenerIsPending(s: seq<Kind>, i: nat)
    ensures IsStrayOpener(s, i) <==> Pending(s, i, |s|)
  {
    if i < |s| && s[i].Open? {
      PendingOrMatched(s, i, |s|);
    }
    if Pending(s, i, |s|) {
      forall j: nat
        ensures !IsMatch(s, i, j)
      {
        if IsMatch(s, i, j) {
          MatchEndsPending(s, i, j, |s|);
        }
      }
    }
  }

  /** An opener has one closer at most, and a closer one opener. */
  lemma MatchIsUnique(s: seq<Kind>, i: nat, j: nat, i': nat, j': nat)
    requires IsMatch(s, i, j) && IsMatch(s, i', j')
    ensures i == i' <==> j == j'
  {
    if j == j' && i < i' {
      OuterHasMore(s, i, i', j);
    } else if j == j' && i' < i {
      OuterHasMore(s, i', i, j);
    } else if i == i' && j < j' {
      MatchEndsPending(s, i, j, j');
    } else if i == i' && j' < j {
      MatchEndsPending(s, i, j', j);
    }
  }

  lemma CommaOwnerIsUnique(s: seq<Kind>, i: nat, i': nat, k: nat)
    requires IsCommaOf(s, i, k) && IsCommaOf(s, i', k)
    ensures i == i'
  {
    if i < i' {
      OuterHasMore(s, i, i', k);
    } else if i' < i {
      OuterHasMore(s, i', i, k);
    }
  }

  /** Two matched pairs are nested or apart. */
  lemma PairsNestOrAreApart(s: seq<Kind>, i: nat, j: nat, i': nat, j': nat)
    requires IsMatch(s, i, j) && IsMatch(s, i', j') && i < i'
    ensures j < i' || j' < j
  {
    if i' < j <= j' {
      MatchIsUnique(s, i, j, i', j');
      assert Excess(s, i, j + 1) == 0;
      ExcessSum(s, i, i', j + 1);
    }
  }

  // ---------------------------------------------------------------------------------------------
  // The groups
  // ---------------------------------------------------------------------------------------------

  /** The opener `i` and its commas before `n`, in order. */
  function Members(s: seq<Kind>, i: nat, n: nat): seq<nat>
    requires i < |s|
    requires n <= |s|
    decreases n
  {
    if n <= i then []
    else if n - 1 == i then [i]
    else Members(s, i, n - 1) + if s[n - 1].Comma? && Excess(s, i, n - 1) == 1 then [n - 1] else []
  }

  /** A matched pair with the commas between. */
  function Group(s: seq<Kind>, i: nat, j: nat): (g: seq<nat>)
    requires i < j < |s|
  {
    Members(s, i, j) + [j]
  }

  lemma NextMember(s: seq<Kind>, i: nat, k: nat)
    requires i < k < |s| && Pending(s, i, k + 1)
    ensures Pending(s, i, k)
    ensures IsCommaOf(s, i, k) <==> s[k].Comma? && Excess(s, i, k) == 1
  {
    PendingStep(s, i, k);
  }

  lemma NoCommaBetween(s: seq<Kind>, i: nat, k: nat)
    ensures IsCommaOf(s, i, k) ==> i < k
  {
  }

  lemma {:induction false} MembersExact(s: seq<Kind>, i: nat, n: nat)
    requires i < n <= |s| && Pending(s, i, n)
    ensures var m := Members(s, i, n);
      && m != [] && m[0] == i
      && (forall k :: 0 < k < |m| ==> IsCommaOf(s, i, m[k]))
      && (forall k: nat :: k < n && IsCommaOf(s, i, k) ==> k in m)
      && (forall k, l :: 0 <= k < l < |m| ==> m[k] < m[l])
      && (forall k :: 0 <= k < |m| ==> i <= m[k] < n)
    decreases n
  {
    hide Pending, IsCommaOf, Excess;
    if n == i + 1 {
      forall k: nat
        ensures IsCommaOf(s, i, k) ==> k >= n
      {
        NoCommaBetween(s, i, k);
      }
    } else {
      NextMember(s, i, n - 1);
      MembersExact(s, i, n - 1);
      var m', m := Members(s, i, n - 1), Members(s, i, n);
      assert m == m' + if IsCommaOf(s, i, n - 1) then [n - 1] else [];
      forall k: nat | k < n && IsCommaOf(s, i, k)
        ensures k in m
      {
        if k < n - 1 {
          assert k in m';
        }
      }
    }
  }

  /** The group of a pair: the opener first, the closer last, and between them exactly the commas of the opener. */
  lemma GroupExact(s: seq<Kind>, i: nat, j: nat)
    requires IsMatch(s, i, j)
    ensures var g := Group(s, i, j);
      && |g| >= 2 && g[0] == i && g[|g| - 1] == j
      && (forall k :: 0 < k < |g| - 1 ==> IsCommaOf(s, i, g[k]))
      && (forall k: nat :: k in g <==> k == i || k == j || (k < j && IsCommaOf(s, i, k)))
      && (forall k, l :: 0 <= k < l < |g| ==> g[k] < g[l])
  {
    MembersExact(s, i, j);
    var m, g := Members(s, i, j), Group(s, i, j);
    forall k: nat
      ensures k in g <==> k == i || k == j || (k < j && IsCommaOf(s, i, k))
    {
      if k in m {
        var l :| 0 <= l < |m| && m[l] == k;
        assert l == 0 || IsCommaOf(s, i, m[l]);
      }
      assert m[0] in m && g == m + [j];
    }
  }

  /** A token is in one group at most. */
  lemma GroupsAreDisjoint(s: seq<Kind>, i: nat, j: nat, i': nat, j': nat, k: nat)
    requires IsMatch(s, i, j) && IsMatch(s, i', j') && k in Group(s, i, j) && k in Group(s, i', j')
    ensures i == i' && j == j'
  {
    hide IsMatch, Group;
    GroupExact(s, i, j);
    GroupExact(s, i', j');
    MatchIsUnique(s, i, j, i', j');
    KindsInGroup(s, i, j, k);
    KindsInGroup(s, i', j', k);
    if IsCommaOf(s, i, k) && IsCommaOf(s, i', k) {
      CommaOwnerIsUnique(s, i, i', k);
    }
  }

  lemma KindsInGroup(s: seq<Kind>, i: nat, j: nat, k: nat)
    requires IsMatch(s, i, j)
    ensures i < |s| && j < |s| && s[i].Open? && s[j].Close? && (IsCommaOf(s, i, k) ==> s[k].Comma?)
  {
  }

  // ---------------------------------------------------------------------------------------------
  // The stack
  // ---------------------------------------------------------------------------------------------

  /** The openers still pending after `n` tokens, outermost first: what a scan keeps on its stack.  A closer
      removes the innermost one, if there is any. */
  function Stack(s: seq<Kind>, n: nat): seq<nat>
    requires n <= |s|
  {
    if n == 0 then []
    else
      var before := Stack(s, n - 1);
      match s[n - 1]
      case Open => before + [n - 1]
      case Close => if before == [] then [] else before[..|before| - 1]
      case _ => before
  }

  /** One entry of the stack: a pending opener, and the depth above it is the excess there. */
  ghost predicate EntryOk(s: seq<Kind>, n: nat, t: seq<nat>, d: nat) {
    d < |t| && Pending(s, t[d], n) && Excess(s, t[d], n) == |t| - d
  }

  lemma EntryStep(s: seq<Kind>, n: nat, u: seq<nat>, t: seq<nat>, d: nat)
    requires n < |s| && EntryOk(s, n, u, d) && d < |t| && t[d] == u[d]
    requires |t| == |u| + match s[n] { case Open => 1 case Close => -1 case _ => 0 }
    ensures EntryOk(s, n + 1, t, d)
  {
    PendingStep(s, u[d], n);
  }

  lemma NewEntryOk(s: seq<Kind>, n: nat, u: seq<nat>)
    requires n < |s| && s[n].Open?
    ensures EntryOk(s, n + 1, u + [n], |u|)
  {
    PendingStart(s, n);
  }

  lemma EntryIsBefore(s: seq<Kind>, n: nat, t: seq<nat>, d: nat)
    requires EntryOk(s, n, t, d)
    ensures d < |t| && t[d] < n
  {
  }

  lemma NothingPendingAtStart(s: seq<Kind>, i: nat)
    ensures !Pending(s, i, 0)
  {
  }

  /** The stack holds exactly the pending openers, in order, and its depth above an entry is the excess there. */
  lemma {:induction false} StackHoldsPending(s: seq<Kind>, n: nat)
    requires n <= |s|
    ensures forall d: nat :: d < |Stack(s, n)| ==> EntryOk(s, n, Stack(s, n), d)
    ensures forall i: nat :: Pending(s, i, n) ==> i in Stack(s, n)
    ensures forall d, e :: 0 <= d < e < |Stack(s, n)| ==> Stack(s, n)[d] < Stack(s, n)[e]
  {
    hide EntryOk, Pending, Excess;
    var t := Stack(s, n);
    if n == 0 {
      forall i: nat
        ensures !Pending(s, i, 0)
      {
        NothingPendingAtStart(s, i);
      }
    } else {
      StackHoldsPending(s, n - 1);
      var u := Stack(s, n - 1);
      forall d: nat | d < |t|
        ensures EntryOk(s, n, t, d)
      {
        if d < |u| {
          EntryStep(s, n - 1, u, t, d);
        } else {
          NewEntryOk(s, n - 1, u);
        }
      }
      forall i: nat | Pending(s, i, n)
        ensures i in t
      {
        PendingIsStacked(s, n - 1, u, i);
      }
      forall d, e | 0 <= d < e < |t|
        ensures t[d] < t[e]
      {
        EntryIsBefore(s, n - 1, u, d);
      }
    }
  }

  lemma PendingIsStacked(s: seq<Kind>, n: nat, u: seq<nat>, i: nat)
    requires n < |s| && u == Stack(s, n) && Pending(s, i, n + 1)
    requires forall d: nat :: d < |u| ==> EntryOk(s, n, u, d)
    requires forall k: nat :: Pending(s, k, n) ==> k in u
    ensures i in Stack(s, n + 1)
  {
    var t := Stack(s, n + 1);
    if i < n {
      PendingStep(s, i, n);
      var d: nat :| d < |u| && u[d] == i;
      assert EntryOk(s, n, u, d) && Excess(s, i, n) == |u| - d;
      assert d < |t| && t[d] == i;
    } else {
      assert t[|t| - 1] == i;
    }
  }

  /** At a closer, the top of the stack is its opener; an empty stack means that it is stray. */
  lemma TopIsMatch(s: seq<Kind>, j: nat)
    requires j < |s| && s[j].Close?
    ensures var t := Stack(s, j);
      if t == [] then IsStrayCloser(s, j) else IsMatch(s, t[|t| - 1], j)
  {
    hide Pending, EntryOk, Excess;
    var t := Stack(s, j);
    StackHoldsPending(s, j);
    if t == [] {
      forall i: nat
        ensures !IsMatch(s, i, j)
      {
        assert !Pending(s, i, j);
      }
    } else {
      TopEntryMatches(s, j, t);
    }
  }

  lemma TopEntryMatches(s: seq<Kind>, j: nat, t: seq<nat>)
    requires j < |s| && s[j].Close? && t != [] && EntryOk(s, j, t, |t| - 1)
    ensures IsMatch(s, t[|t| - 1], j)
  {
  }
}
