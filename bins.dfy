/** The bin: labels sent to it wait there until "Delete" empties it, which
    takes each of them out of the application's labels. */
module Bins {
  import opened Wrappers
  import opened Labeller

  /** Python `list.remove(x)`: the list without its first element equal to
      `x`; `None` stands for the `ValueError` raised when there is none. */
  function RemoveFirst<T(==)>(s: seq<T>, x: T): (r: Option<seq<T>>)
    ensures r.Some? ==> |r.value| == |s| - 1
  {
    if s == [] then None
    else if s[0] == x then Some(s[1..])
    else match RemoveFirst(s[1..], x)
      case None => None
      case Some(rest) => Some([s[0]] + rest)
  }

  /** `remove` fails exactly when the element is absent. */
  lemma {:induction false} RemoveFirstFails<T>(s: seq<T>, x: T)
    ensures RemoveFirst(s, x).None? <==> x !in s
  {
    if s != [] && s[0] != x {
      RemoveFirstFails(s[1..], x);
      assert s == [s[0]] + s[1..];
    }
  }

  /** `remove` takes out the first occurrence and keeps the rest in order. */
  lemma {:induction false} RemoveFirstAt<T>(s: seq<T>, x: T, k: nat)
    requires k < |s| && s[k] == x && x !in s[..k]
    ensures RemoveFirst(s, x) == Some(s[..k] + s[k + 1..])
  {
    if k == 0 {
      assert s[..k] + s[k + 1..] == s[1..];
    } else {
      assert s[0] in s[..k];
      assert x !in s[1..][..k - 1] by {
        assert s[1..][..k - 1] == s[1..k];
      }
      RemoveFirstAt(s[1..], x, k - 1);
      assert s[1..][..k - 1] + s[1..][k..] == s[1..k] + s[k + 1..];
      assert [s[0]] + (s[1..k] + s[k + 1..]) == s[..k] + s[k + 1..];
    }
  }

  /** What `remove` leaves is the multiset of the list less one `x`. */
  lemma {:induction false} RemoveFirstCounts<T>(s: seq<T>, x: T)
    requires RemoveFirst(s, x).Some?
    ensures multiset(RemoveFirst(s, x).value) == multiset(s) - multiset{x}
  {
    assert s == [s[0]] + s[1..];
    if s[0] != x {
      RemoveFirstCounts(s[1..], x);
    }
  }

  /** The outcome of removing a list of elements one after the other. */
  datatype Removal<T> = Removal(rest: seq<T>, ok: bool)

  /** The `for` loop of `empty_bin`: each element of `xs` is removed from `s`
      in turn; the first one missing raises and ends the loop, with the
      removals before it done. */
  function RemoveEach<T(==)>(s: seq<T>, xs: seq<T>): Removal<T>
    decreases |xs|
  {
    if xs == [] then Removal(s, true)
    else match RemoveFirst(s, xs[0])
      case None => Removal(s, false)
      case Some(r) => RemoveEach(r, xs[1..])
  }

  /** All removals succeed exactly when every element to remove occurs in
      `s` at least as often as it is listed; then what is left is `s` less
      those elements, counted with multiplicity. */
  lemma {:induction false} RemoveEachCounts<T>(s: seq<T>, xs: seq<T>)
    ensures RemoveEach(s, xs).ok <==> multiset(xs) <= multiset(s)
    ensures RemoveEach(s, xs).ok ==> multiset(RemoveEach(s, xs).rest) == multiset(s) - multiset(xs)
    decreases |xs|
  {
    if xs != [] {
      var x := xs[0];
      assert xs == [x] + xs[1..];
      assert multiset(xs) == multiset{x} + multiset(xs[1..]);
      RemoveFirstFails(s, x);
      if x in s {
        var r := RemoveFirst(s, x).value;
        RemoveFirstCounts(s, x);
        RemoveEachCounts(r, xs[1..]);
        assert multiset(s) == multiset(r) + multiset{x};
      } else {
        assert x in multiset(xs);
      }
    }
  }

  /** A label sent to the bin twice but created once makes emptying the bin
      fail. */
  lemma BinnedTwice<T>(s: seq<T>, xs: seq<T>, x: T)
    requires multiset(xs)[x] >= 2 && multiset(s)[x] <= 1
    ensures !RemoveEach(s, xs).ok
  {
    RemoveEachCounts(s, xs);
  }

  /** The bin frame: the labels sent to the bin, in order, and the
      application whose labels they are. */
  class BinsFrame {
    const app: App
    var labels: seq<Label>

    constructor (app: App)
      ensures this.app == app && labels == []
    {
      this.app := app;
      labels := [];
    }

    /** `add_label`: the label joins the bin. */
    method AddLabel(l: Label)
      modifies this`labels
      ensures labels == old(labels) + [l]
    {
      labels := labels + [l];
    }

    /** `empty_bin`: every binned label is removed from the application's
        labels, in bin order, and the bin is emptied. A label no longer among
        the application's labels raises: the removals before it stay done and
        the bin keeps its labels. */
    method EmptyBin() returns (ok: bool)
      modifies this`labels, app`labelsCreated
      ensures var r := RemoveEach(old(app.labelsCreated), old(labels));
        ok == r.ok && app.labelsCreated == r.rest &&
        labels == (if ok then [] else old(labels))
    {
      var i := 0;
      while i < |labels|
        invariant 0 <= i <= |labels| && labels == old(labels)
        invariant RemoveEach(app.labelsCreated, labels[i..]) == RemoveEach(old(app.labelsCreated), labels)
      {
        assert labels[i..][0] == labels[i] && labels[i..][1..] == labels[i + 1..];
        var removed := RemoveFirst(app.labelsCreated, labels[i]);
        if removed.None? {
          return false;
        }
        app.labelsCreated := removed.value;
        i := i + 1;
      }
      assert labels[i..] == [];
      labels := [];
      ok := true;
    }
  }
}
