/**
  Relational reading of the hosted store's query builder over in-memory tables.
  A table is a sequence of rows in insertion order; `select ... eq ...` keeps the
  rows that satisfy a predicate and `delete ... eq ...` keeps those that do not.
 */
module Table {

  /** The rows of `s` satisfying `keep`, in their original order. */
  function Where<T(!new)>(s: seq<T>, keep: T -> bool): (r: seq<T>)
    ensures |r| <= |s|
    ensures forall x :: x in r <==> x in s && keep(x)
    decreases |s|
  {
    if s == [] then []
    else if keep(s[0]) then [s[0]] + Where(s[1..], keep)
    else Where(s[1..], keep)
  }

  /** Row keys (serial ids) strictly increase along the table. */
  ghost predicate Ascending<T(!new)>(s: seq<T>, key: T -> int)
  {
    forall i, j :: 0 <= i < j < |s| ==> key(s[i]) < key(s[j])
  }

  /** `s` with exactly one element, `x`, taken out, the others kept in order. */
  ghost predicate RemovedOne<T(!new)>(s: seq<T>, t: seq<T>, x: T)
  {
    exists k :: 0 <= k < |s| && s[k] == x && t == s[..k] + s[k + 1..]
  }

  lemma {:induction false} WhereConcat<T(!new)>(a: seq<T>, b: seq<T>, keep: T -> bool)
    ensures Where(a + b, keep) == Where(a, keep) + Where(b, keep)
    decreases |a|
  {
    if a == [] {
      assert a + b == b;
    } else {
      assert (a + b)[0] == a[0] && (a + b)[1..] == a[1..] + b;
      WhereConcat(a[1..], b, keep);
    }
  }

  /** A filter that every row passes leaves the table as it is. */
  lemma {:induction false} WhereKeepsAll<T(!new)>(s: seq<T>, keep: T -> bool)
    requires forall i :: 0 <= i < |s| ==> keep(s[i])
    ensures Where(s, keep) == s
    decreases |s|
  {
    if s != [] {
      WhereKeepsAll(s[1..], keep);
    }
  }

  /** A filter that only the row at `k` fails removes that row and nothing else. */
  lemma WhereRemovesOnly<T(!new)>(s: seq<T>, keep: T -> bool, k: nat)
    requires k < |s| && !keep(s[k])
    requires forall i :: 0 <= i < |s| && i != k ==> keep(s[i])
    ensures Where(s, keep) == s[..k] + s[k + 1..]
    ensures RemovedOne(s, Where(s, keep), s[k])
  {
    var pre, post := s[..k], s[k + 1..];
    WhereSplitAt(s, keep, k);
    WhereKeepsPrefix(s, keep, k);
    WhereKeepsSuffix(s, keep, k);
    assert Where(s, keep) == pre + post;
  }

  lemma WhereSplitAt<T(!new)>(s: seq<T>, keep: T -> bool, k: nat)
    requires k < |s| && !keep(s[k])
    ensures Where(s, keep) == Where(s[..k], keep) + Where(s[k + 1..], keep)
  {
    var pre, post := s[..k], s[k + 1..];
    var tail := [s[k]] + post;
    assert s == pre + tail;
    assert tail[1..] == post;
    calc {
      Where(s, keep);
      Where(pre + tail, keep);
      { WhereConcat(pre, tail, keep); }
      Where(pre, keep) + Where(tail, keep);
      { WhereDropsHead(tail, keep); }
      Where(pre, keep) + Where(post, keep);
    }
  }

  lemma WhereDropsHead<T(!new)>(s: seq<T>, keep: T -> bool)
    requires s != [] && !keep(s[0])
    ensures Where(s, keep) == Where(s[1..], keep)
  {
  }

  lemma WhereKeepsPrefix<T(!new)>(s: seq<T>, keep: T -> bool, k: nat)
    requires k < |s|
    requires forall i :: 0 <= i < |s| && i != k ==> keep(s[i])
    ensures Where(s[..k], keep) == s[..k]
  {
    var pre := s[..k];
    forall i | 0 <= i < |pre| ensures keep(pre[i]) {
      assert pre[i] == s[i];
    }
    WhereKeepsAll(pre, keep);
  }

  lemma WhereKeepsSuffix<T(!new)>(s: seq<T>, keep: T -> bool, k: nat)
    requires k < |s|
    requires forall i :: 0 <= i < |s| && i != k ==> keep(s[i])
    ensures Where(s[k + 1..], keep) == s[k + 1..]
  {
    var post := s[k + 1..];
    forall i | 0 <= i < |post| ensures keep(post[i]) {
      assert post[i] == s[k + 1 + i];
    }
    WhereKeepsAll(post, keep);
  }

  /** Filtering keeps the serial order of the rows. */
  lemma {:induction false} WhereAscending<T(!new)>(s: seq<T>, keep: T -> bool, key: T -> int)
    requires Ascending(s, key)
    ensures Ascending(Where(s, keep), key)
    decreases |s|
  {
    if s != [] {
      var tail := s[1..];
      assert Ascending(tail, key) by {
        forall i, j | 0 <= i < j < |tail| ensures key(tail[i]) < key(tail[j]) {
          assert tail[i] == s[i + 1] && tail[j] == s[j + 1];
        }
      }
      WhereAscending(tail, keep, key);
      if keep(s[0]) {
        var r := Where(tail, keep);
        forall x | x in r ensures key(s[0]) < key(x) {
          var j :| 0 <= j < |tail| && tail[j] == x;
          assert s[j + 1] == x;
        }
        var w := [s[0]] + r;
        forall i, j | 0 <= i < j < |w| ensures key(w[i]) < key(w[j]) {
          assert w[j] == r[j - 1];
          if i > 0 {
            assert w[i] == r[i - 1];
          } else {
            assert w[j] in r;
          }
        }
      }
    }
  }

  /** A second, narrower filter makes the first one redundant. */
  lemma {:induction false} WhereAbsorb<T(!new)>(s: seq<T>, outer: T -> bool, inner: T -> bool)
    requires forall x :: inner(x) ==> outer(x)
    ensures Where(Where(s, outer), inner) == Where(s, inner)
    decreases |s|
  {
    if s != [] {
      WhereAbsorb(s[1..], outer, inner);
    }
  }
}
