/** The priority order the queue keeps: its live entries are non-decreasing
    by priority, smallest first. */
module Ordering {
  import opened Sequences
  import opened PriorityEntry

  /** Every earlier entry has a priority no larger than every later one. */
  ghost predicate Sorted<X>(s: seq<Priority<X>>)
  {
    forall i, j :: 0 <= i < j < |s| ==> s[i].priority <= s[j].priority
  }

  /** The check the queue's tests apply to a `toArray` snapshot: each entry's
      priority is no larger than its right neighbour's. */
  predicate AdjacentSorted<X>(s: seq<Priority<X>>)
  {
    forall i :: 0 <= i < |s| - 1 ==> s[i].priority <= s[i + 1].priority
  }

  /** Checking neighbours is enough: the two notions of order coincide. */
  lemma {:induction false} AdjacentSortedIffSorted<X>(s: seq<Priority<X>>)
    ensures AdjacentSorted(s) <==> Sorted(s)
  {
    if AdjacentSorted(s) && |s| > 0 {
      var t := s[1..];
      assert AdjacentSorted(t) by {
        forall i | 0 <= i < |t| - 1 ensures t[i].priority <= t[i + 1].priority {
          assert t[i] == s[i + 1] && t[i + 1] == s[i + 2];
        }
      }
      AdjacentSortedIffSorted(t);
      forall i, j | 0 <= i < j < |s| ensures s[i].priority <= s[j].priority {
        if 0 < i {
          assert s[i] == t[i - 1] && s[j] == t[j - 1];
        } else if 1 < j {
          assert s[1] == t[0] && s[j] == t[j - 1];
        }
      }
    }
  }

  /** Index `p` of `s` is a place where an entry of priority `k` may go:
      everything before it has priority at most `k`, everything from it on
      at least `k`. */
  ghost predicate IsSlot<X>(s: seq<Priority<X>>, p: int, k: int)
  {
    && 0 <= p <= |s|
    && (forall i :: 0 <= i < p ==> s[i].priority <= k)
    && (forall i :: p <= i < |s| ==> k <= s[i].priority)
  }

  /** Inserting at `p` keeps the order exactly when `s` was sorted and `p` is a
      slot for the new entry's priority. */
  lemma InsertSortedIff<X>(s: seq<Priority<X>>, p: nat, e: Priority<X>)
    requires p <= |s|
    ensures Sorted(Insert(s, p, e)) <==> Sorted(s) && IsSlot(s, p, e.priority)
  {
    var r := Insert(s, p, e);
    InsertIndexing(s, p, e);
    if Sorted(r) {
      forall i, j | 0 <= i < j < |s| ensures s[i].priority <= s[j].priority {
        var i', j' := if i < p then i else i + 1, if j < p then j else j + 1;
        assert r[i'] == s[i] && r[j'] == s[j];
      }
      forall i | 0 <= i < p ensures s[i].priority <= e.priority {
        assert r[i] == s[i];
      }
      forall i | p <= i < |s| ensures e.priority <= s[i].priority {
        assert r[i + 1] == s[i];
      }
    }
  }

  /** `r` is `s` with `e` placed at a slot for its priority. */
  ghost predicate InsertedAtSlot<X>(s: seq<Priority<X>>, e: Priority<X>, r: seq<Priority<X>>)
  {
    exists p :: IsSlot(s, p, e.priority) && r == Insert(s, p, e)
  }

  /** Taking an entry out never breaks the order. */
  lemma DeleteSorted<X>(s: seq<Priority<X>>, p: nat)
    requires p < |s| && Sorted(s)
    ensures Sorted(Delete(s, p))
  {
    var r := Delete(s, p);
    DeleteIndexing(s, p);
    forall i, j | 0 <= i < j < |r| ensures r[i].priority <= r[j].priority {
      var i', j' := if i < p then i else i + 1, if j < p then j else j + 1;
      assert r[i] == s[i'] && r[j] == s[j'];
    }
  }

  /** The head of a sorted sequence has the minimum priority. */
  lemma HeadIsMinimum<X>(s: seq<Priority<X>>)
    requires Sorted(s) && s != []
    ensures forall x :: x in s ==> s[0].priority <= x.priority
  {
  }
}
