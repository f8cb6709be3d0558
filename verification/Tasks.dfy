/** The choice Task.WhenAny makes among racing tasks. */
module Tasks {
  import opened Results

  function FirstListed<T(==)>(order: seq<T>, done: seq<T>): (r: Option<T>)
    ensures r.Some? ==> r.value in order && r.value in done
    ensures r.None? ==> forall k | k in order :: k !in done
  {
    if order == [] then None
    else if order[0] in done then Some(order[0]) else FirstListed(order[1..], done)
  }

  function FirstToComplete<T(==)>(order: seq<T>, later: seq<T>): (r: Option<T>)
    ensures r.Some? ==> r.value in order && r.value in later
    ensures r.None? ==> forall k | k in order :: k !in later
  {
    if later == [] then None
    else if later[0] in order then Some(later[0]) else FirstToComplete(order, later[1..])
  }

  /** Of the tasks already done, the first in argument order; if none is, the first to complete. */
  function WhenAny<T(==)>(order: seq<T>, done: seq<T>, later: seq<T>): Option<T> {
    if FirstListed(order, done).Some? then FirstListed(order, done) else FirstToComplete(order, later)
  }

  lemma {:induction false} OneMore<T>(order: seq<T>, later: seq<T>, task: T)
    ensures FirstToComplete(order, later + [task])
         == if FirstToComplete(order, later).Some? then FirstToComplete(order, later)
            else if task in order then Some(task) else None
  {
    if later == [] {
      assert later + [task] == [task];
    } else {
      assert (later + [task])[1..] == later[1..] + [task];
      OneMore(order, later[1..], task);
    }
  }

  /** The meaning of the race: done already, then argument order decides; otherwise the order of completion. */
  lemma {:induction false} WhenAnyExactly<T>(order: seq<T>, done: seq<T>, later: seq<T>, winner: T)
    ensures WhenAny(order, done, later) == Some(winner) <==>
      || (exists i :: 0 <= i < |order| && order[i] == winner && winner in done && forall j | 0 <= j < i :: order[j] !in done)
      || ((forall k | k in order :: k !in done)
          && exists i :: 0 <= i < |later| && later[i] == winner && winner in order && forall j | 0 <= j < i :: later[j] !in order)
  {
    FirstListedExactly(order, done, winner);
    FirstToCompleteExactly(order, later, winner);
    if FirstListed(order, done).Some? { assert !(forall k | k in order :: k !in done); }
    hide FirstListed, FirstToComplete;
  }

  lemma {:induction false} FirstListedExactly<T>(order: seq<T>, done: seq<T>, winner: T)
    ensures FirstListed(order, done) == Some(winner) <==>
      exists i :: 0 <= i < |order| && order[i] == winner && winner in done && forall j | 0 <= j < i :: order[j] !in done
  {
    if order == [] || order[0] in done {
    } else {
      FirstListedExactly(order[1..], done, winner);
      if i :| 0 <= i < |order| && order[i] == winner && winner in done && forall j | 0 <= j < i :: order[j] !in done {
        assert order[1..][i - 1] == winner;
      }
      if i :| 0 <= i < |order| - 1 && order[1..][i] == winner && winner in done
              && forall j | 0 <= j < i :: order[1..][j] !in done {
        assert order[i + 1] == winner;
        forall j | 0 <= j < i + 1 ensures order[j] !in done { if j > 0 { assert order[1..][j - 1] == order[j]; } }
      }
    }
  }

  lemma {:induction false} FirstToCompleteExactly<T>(order: seq<T>, later: seq<T>, winner: T)
    ensures FirstToComplete(order, later) == Some(winner) <==>
      exists i :: 0 <= i < |later| && later[i] == winner && winner in order && forall j | 0 <= j < i :: later[j] !in order
  {
    if later == [] || later[0] in order {
    } else {
      FirstToCompleteExactly(order, later[1..], winner);
      if i :| 0 <= i < |later| && later[i] == winner && winner in order && forall j | 0 <= j < i :: later[j] !in order {
        assert later[1..][i - 1] == winner;
      }
      if i :| 0 <= i < |later| - 1 && later[1..][i] == winner && winner in order
              && forall j | 0 <= j < i :: later[1..][j] !in order {
        assert later[i + 1] == winner;
        forall j | 0 <= j < i + 1 ensures later[j] !in order { if j > 0 { assert later[1..][j - 1] == later[j]; } }
      }
    }
  }

  /**
   * Done when asked, and none of those asked for before it; or none done when asked, and the first to complete after.
   */
  ghost predicate Chosen<T>(done: seq<T>, later: seq<T>, racers: set<T>, ahead: set<T>, task: T) {
    || (task in done && forall k | k in ahead :: k !in done)
    || ((forall k | k in racers :: k !in done)
        && exists i :: 0 <= i < |later| && later[i] == task && forall j | 0 <= j < i :: later[j] !in racers)
  }

  /** The choice by place: a task wins over those asked for after it and loses to those asked for before. */
  lemma ChosenExactly<T>(order: seq<T>, done: seq<T>, later: seq<T>, k: nat, racers: set<T>, ahead: set<T>)
    requires k < |order| && (forall i, j | 0 <= i < j < |order| :: order[i] != order[j])
    requires (forall x | x in racers :: x in order) && forall x | x in order :: x in racers
    requires (forall x | x in ahead :: x in order[..k]) && forall x | x in order[..k] :: x in ahead
    ensures WhenAny(order, done, later) == Some(order[k]) <==> Chosen(done, later, racers, ahead, order[k])
  {
    WhenAnyExactly(order, done, later, order[k]);
    hide WhenAny;
    assert forall j | 0 <= j < k :: order[j] == order[..k][j];
  }
}
