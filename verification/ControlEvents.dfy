/** The window's control-event queue: four slots that must not lose a close. */
module ControlEvents {
  import opened Wrappers

  const CONTROL_EVENT_CAPACITY := 4

  /** Focus notices supersede each other; everything else but a close is disposable. */
  datatype Event = Focus(focused: bool) | Closed | Disposable(tag: int)

  /** Removes every focus notice. */
  function WithoutFocus(q: seq<Event>): (r: seq<Event>)
    ensures |r| <= |q|
    ensures forall e :: e in r <==> e in q && !e.Focus?
  {
    if q == [] then []
    else if q[0].Focus? then WithoutFocus(q[1..])
    else [q[0]] + WithoutFocus(q[1..])
  }

  predicate HasClosed(q: seq<Event>) {
    Closed in q
  }

  /** The first index holding a focus notice, or the length. */
  function FirstFocus(q: seq<Event>): (i: nat)
    ensures i <= |q| && (forall j :: 0 <= j < i ==> !q[j].Focus?) && (i < |q| ==> q[i].Focus?)
  {
    if q == [] || q[0].Focus? then 0 else 1 + FirstFocus(q[1..])
  }

  /** The first index holding anything but a close, or the length. */
  function FirstOther(q: seq<Event>): (i: nat)
    ensures i <= |q| && (forall j :: 0 <= j < i ==> q[j].Closed?) && (i < |q| ==> !q[i].Closed?)
  {
    if q == [] || !q[0].Closed? then 0 else 1 + FirstOther(q[1..])
  }

  function RemoveAt(q: seq<Event>, i: nat): seq<Event>
    requires i < |q|
  {
    q[..i] + q[i + 1..]
  }

  function Push(q: seq<Event>, event: Event): seq<Event> {
    var kept := if event.Focus? then WithoutFocus(q) else q;
    if |kept| < CONTROL_EVENT_CAPACITY then kept + [event]
    else if FirstFocus(kept) < |kept| then RemoveAt(kept, FirstFocus(kept)) + [event]
    else if event.Disposable? then kept
    else if event.Closed? && HasClosed(kept) then kept
    else if FirstOther(kept) < |kept| then RemoveAt(kept, FirstOther(kept)) + [event]
    else kept
  }

  function Pop(q: seq<Event>): (seq<Event>, Option<Event>) {
    if q == [] then (q, None) else (q[1..], Some(q[0]))
  }

  class ControlEventQueue {
    var events: seq<Event>

    constructor ()
      ensures events == []
    {
      events := [];
    }

    method PushEvent(event: Event)
      modifies this
      ensures events == Push(old(events), event)
    {
      if event.Focus? {
        events := WithoutFocus(events);
      }
      if |events| >= CONTROL_EVENT_CAPACITY {
        var focus := FirstFocus(events);
        if focus < |events| {
          events := RemoveAt(events, focus);
        } else if event.Focus? || event.Closed? {
          if event.Closed? && HasClosed(events) { return; }
          var other := FirstOther(events);
          if other == |events| { return; }
          events := RemoveAt(events, other);
        } else {
          return;
        }
      }
      events := events + [event];
    }

    method PopEvent() returns (event: Option<Event>)
      modifies this
      ensures (events, event) == Pop(old(events))
    {
      if events == [] { return None; }
      event := Some(events[0]);
      events := events[1..];
    }
  }

  // ---- A close is never lost ---------------------------------------------------------------

  function FirstClosed(q: seq<Event>): (i: nat)
    ensures i <= |q| && (i < |q| <==> HasClosed(q))
  {
    if q == [] || q[0].Closed? then 0 else 1 + FirstClosed(q[1..])
  }

  /** Removing something else never moves the close back. */
  lemma {:induction false} RemoveKeepsClose(q: seq<Event>, i: nat)
    requires i < |q| && !q[i].Closed? && HasClosed(q)
    ensures HasClosed(RemoveAt(q, i)) && FirstClosed(RemoveAt(q, i)) <= FirstClosed(q)
  {
    var r := RemoveAt(q, i);
    if i == 0 {
      assert r == q[1..];
    } else if !q[0].Closed? {
      assert r[1..] == RemoveAt(q[1..], i - 1) by {
        assert q[1..][..i - 1] == q[..i][1..] && q[1..][i..] == q[i + 1..];
      }
      RemoveKeepsClose(q[1..], i - 1);
    } else {
      assert r[0].Closed?;
    }
  }

  lemma {:induction false} WithoutFocusKeepsClose(q: seq<Event>)
    requires HasClosed(q)
    ensures HasClosed(WithoutFocus(q)) && FirstClosed(WithoutFocus(q)) <= FirstClosed(q)
  {
    if !q[0].Closed? {
      WithoutFocusKeepsClose(q[1..]);
    }
  }

  lemma {:induction false} AppendKeepsClose(q: seq<Event>, e: Event)
    requires HasClosed(q)
    ensures FirstClosed(q + [e]) == FirstClosed(q)
  {
    if !q[0].Closed? {
      assert (q + [e])[1..] == q[1..] + [e];
      AppendKeepsClose(q[1..], e);
    }
  }

  /** A push never removes a queued close and never moves it back. */
  lemma PushKeepsClose(q: seq<Event>, e: Event)
    requires HasClosed(q)
    ensures HasClosed(Push(q, e)) && FirstClosed(Push(q, e)) <= FirstClosed(q)
  {
    var kept := if e.Focus? then WithoutFocus(q) else q;
    if e.Focus? {
      WithoutFocusKeepsClose(q);
    }
    AppendKeepsClose(kept, e);
    if |kept| >= CONTROL_EVENT_CAPACITY {
      if FirstFocus(kept) < |kept| {
        RemoveKeepsClose(kept, FirstFocus(kept));
        AppendKeepsClose(RemoveAt(kept, FirstFocus(kept)), e);
      } else if FirstOther(kept) < |kept| {
        RemoveKeepsClose(kept, FirstOther(kept));
        AppendKeepsClose(RemoveAt(kept, FirstOther(kept)), e);
      }
    }
  }

  /** The queue stays within its capacity, and pushing a close always leaves one queued. */
  lemma PushIsBounded(q: seq<Event>, e: Event)
    requires |q| <= CONTROL_EVENT_CAPACITY
    ensures |Push(q, e)| <= CONTROL_EVENT_CAPACITY
    ensures e.Closed? ==> HasClosed(Push(q, e))
  {
    var r := Push(q, e);
    if HasClosed(q) {
      PushKeepsClose(q, e);
    } else if e.Closed? {
      assert |q| == CONTROL_EVENT_CAPACITY ==> !q[0].Closed?;
      assert r[|r| - 1] == e;
    }
  }

  /** Everything in `a` appears in `b` in the same order. */
  predicate Subsequence(a: seq<Event>, b: seq<Event>)
    decreases |b|
  {
    a == [] || (b != [] && (Subsequence(a, b[1..]) || (a[0] == b[0] && Subsequence(a[1..], b[1..]))))
  }

  lemma {:induction false} SubsequenceOfItself(a: seq<Event>)
    ensures Subsequence(a, a)
  {
    if a != [] {
      SubsequenceOfItself(a[1..]);
    }
  }

  lemma {:induction false} AppendSubsequence(a: seq<Event>, b: seq<Event>, e: Event)
    requires Subsequence(a, b)
    ensures Subsequence(a + [e], b + [e]) && Subsequence(a, b + [e])
    decreases |b|
  {
    if b == [] {
      assert a + [e] == [e] && b + [e] == [e] && [e][1..] == [];
    } else {
      assert (b + [e])[1..] == b[1..] + [e];
      if Subsequence(a, b[1..]) {
        AppendSubsequence(a, b[1..], e);
      } else if a != [] {
        assert (a + [e])[1..] == a[1..] + [e];
        AppendSubsequence(a[1..], b[1..], e);
      }
    }
  }

  lemma {:induction false} RemoveIsSubsequence(q: seq<Event>, i: nat)
    requires i < |q|
    ensures Subsequence(RemoveAt(q, i), q)
  {
    var r := RemoveAt(q, i);
    if i == 0 {
      assert r == q[1..];
      SubsequenceOfItself(q[1..]);
    } else {
      assert r[1..] == RemoveAt(q[1..], i - 1) by {
        assert q[1..][..i - 1] == q[..i][1..] && q[1..][i..] == q[i + 1..];
      }
      RemoveIsSubsequence(q[1..], i - 1);
    }
  }

  lemma {:induction false} WithoutFocusIsSubsequence(q: seq<Event>)
    ensures Subsequence(WithoutFocus(q), q)
  {
    if q != [] {
      WithoutFocusIsSubsequence(q[1..]);
      assert !q[0].Focus? ==> WithoutFocus(q)[1..] == WithoutFocus(q[1..]);
    }
  }

  lemma {:induction false} SubsequenceIsTransitive(a: seq<Event>, b: seq<Event>, c: seq<Event>)
    requires Subsequence(a, b) && Subsequence(b, c)
    ensures Subsequence(a, c)
    decreases |b| + |c|
  {
    if a != [] {
      if Subsequence(b, c[1..]) {
        SubsequenceIsTransitive(a, b, c[1..]);
      } else if Subsequence(a, b[1..]) {
        SubsequenceIsTransitive(a, b[1..], c[1..]);
      } else {
        SubsequenceIsTransitive(a[1..], b[1..], c[1..]);
      }
    }
  }

  /** Events keep their order, a push adds nothing but its own event, and with room left nothing but a focus
      notice displaces anything. */
  lemma PushKeepsOrder(q: seq<Event>, e: Event)
    ensures Subsequence(Push(q, e), q + [e])
    ensures |q| < CONTROL_EVENT_CAPACITY && !e.Focus? ==> Push(q, e) == q + [e]
  {
    var kept := if e.Focus? then WithoutFocus(q) else q;
    SubsequenceOfItself(q);
    WithoutFocusIsSubsequence(q);
    AppendSubsequence(kept, q, e);
    if |kept| >= CONTROL_EVENT_CAPACITY && Push(q, e) != kept {
      var i := if FirstFocus(kept) < |kept| then FirstFocus(kept) else FirstOther(kept);
      RemoveIsSubsequence(kept, i);
      SubsequenceIsTransitive(RemoveAt(kept, i), kept, q);
      AppendSubsequence(RemoveAt(kept, i), q, e);
    }
  }

  lemma {:induction false} WithoutFocusShrinks(q: seq<Event>, i: nat)
    requires i < |q| && q[i].Focus?
    ensures |WithoutFocus(q)| < |q|
  {
    if i > 0 {
      WithoutFocusShrinks(q[1..], i - 1);
    }
  }

  /** A focus notice is queued unless four closes fill the queue, and only then is it refused. */
  lemma FocusLands(q: seq<Event>, e: Event)
    requires |q| <= CONTROL_EVENT_CAPACITY && e.Focus?
    ensures e in Push(q, e) <==> !(|q| == CONTROL_EVENT_CAPACITY && forall i :: 0 <= i < |q| ==> q[i].Closed?)
  {
    var kept := WithoutFocus(q);
    if i :| 0 <= i < |q| && !q[i].Closed? {
      if q[i].Focus? {
        WithoutFocusShrinks(q, i);
      } else {
        assert q[i] in kept;
        assert FirstOther(kept) < |kept|;
      }
    } else {
      WithoutNothing(q);
    }
  }

  predicate HasFocus(q: seq<Event>) {
    exists i :: 0 <= i < |q| && q[i].Focus?
  }

  /** Event number `i` is the oldest focus notice. */
  predicate OldestFocus(q: seq<Event>, i: nat) {
    i < |q| && q[i].Focus? && forall j :: 0 <= j < i ==> !q[j].Focus?
  }

  /** Event number `i` is the oldest that is not a close. */
  predicate OldestOther(q: seq<Event>, i: nat) {
    i < |q| && !q[i].Closed? && forall j :: 0 <= j < i ==> q[j].Closed?
  }

  /** In a full queue a waiting focus notice gives way to anything else. */
  lemma FullQueueDropsFocus(q: seq<Event>, e: Event, i: nat)
    requires |q| == CONTROL_EVENT_CAPACITY && !e.Focus? && OldestFocus(q, i)
    ensures Push(q, e) == RemoveAt(q, i) + [e]
  {
    assert FirstFocus(q) == i;
  }

  /** In a full queue without one, a disposable event is dropped, and so is a close when one is queued. */
  lemma FullQueueDropsEvent(q: seq<Event>, e: Event)
    requires |q| == CONTROL_EVENT_CAPACITY && !HasFocus(q) && (e.Disposable? || (e.Closed? && HasClosed(q)))
    ensures Push(q, e) == q
  {
    assert FirstFocus(q) == |q|;
  }

  /** Any other close or focus notice displaces the oldest event that is not a close. */
  lemma FullQueueDropsOldest(q: seq<Event>, e: Event, i: nat)
    requires |q| == CONTROL_EVENT_CAPACITY && !HasFocus(q) && OldestOther(q, i)
    requires e.Focus? || (e.Closed? && !HasClosed(q))
    ensures Push(q, e) == RemoveAt(q, i) + [e]
  {
    WithoutNothing(q);
    assert FirstFocus(q) == |q| && FirstOther(q) == i;
  }

  lemma {:induction false} WithoutNothing(q: seq<Event>)
    requires !HasFocus(q)
    ensures WithoutFocus(q) == q
  {
    if q != [] {
      assert !q[0].Focus?;
      assert forall i :: 0 <= i < |q[1..]| ==> q[1..][i] == q[i + 1];
      WithoutNothing(q[1..]);
    }
  }

  // ---- Any interleaving --------------------------------------------------------------------

  datatype Op = PushOp(event: Event) | PopOp

  function After(q: seq<Event>, ops: seq<Op>): seq<Event>
    decreases |ops|
  {
    if ops == [] then q
    else After(if ops[0].PushOp? then Push(q, ops[0].event) else Pop(q).0, ops[1..])
  }

  /** The events popped, in order. */
  function Popped(q: seq<Event>, ops: seq<Op>): seq<Event>
    decreases |ops|
  {
    if ops == [] then []
    else if ops[0].PushOp? then Popped(Push(q, ops[0].event), ops[1..])
    else if q == [] then Popped(q, ops[1..])
    else [q[0]] + Popped(q[1..], ops[1..])
  }

  function PopCount(ops: seq<Op>): nat {
    if ops == [] then 0 else (if ops[0].PopOp? then 1 else 0) + PopCount(ops[1..])
  }

  lemma {:induction false} AlwaysBounded(q: seq<Event>, ops: seq<Op>)
    requires |q| <= CONTROL_EVENT_CAPACITY
    ensures |After(q, ops)| <= CONTROL_EVENT_CAPACITY
    decreases |ops|
  {
    if ops != [] {
      if ops[0].PushOp? {
        PushIsBounded(q, ops[0].event);
        AlwaysBounded(Push(q, ops[0].event), ops[1..]);
      } else {
        AlwaysBounded(Pop(q).0, ops[1..]);
      }
    }
  }

  lemma {:induction false} QueuedCloseComesOut(q: seq<Event>, ops: seq<Op>)
    requires HasClosed(q) && PopCount(ops) > FirstClosed(q)
    ensures Closed in Popped(q, ops)
    decreases |ops|
  {
    if ops[0].PushOp? {
      PushKeepsClose(q, ops[0].event);
      QueuedCloseComesOut(Push(q, ops[0].event), ops[1..]);
    } else if !q[0].Closed? {
      QueuedCloseComesOut(q[1..], ops[1..]);
    }
  }

  /** Whatever came before and whatever is pushed in between, four pops after a close was pushed return it. */
  lemma CloseIsDelivered(before: seq<Op>, after: seq<Op>)
    requires PopCount(after) >= CONTROL_EVENT_CAPACITY
    ensures Closed in Popped(Push(After([], before), Closed), after)
  {
    var q := After([], before);
    AlwaysBounded([], before);
    PushIsBounded(q, Closed);
    QueuedCloseComesOut(Push(q, Closed), after);
  }

  /** At most one focus notice is queued, and it is the newest one pushed. */
  ghost predicate FocusIsCurrent(q: seq<Event>, newest: Option<Event>) {
    && (forall i, j :: 0 <= i < j < |q| ==> !(q[i].Focus? && q[j].Focus?))
    && (forall i :: 0 <= i < |q| && q[i].Focus? ==> newest == Some(q[i]))
  }

  function NewestFocus(newest: Option<Event>, ops: seq<Op>): Option<Event>
    decreases |ops|
  {
    if ops == [] then newest
    else NewestFocus(if ops[0].PushOp? && ops[0].event.Focus? then Some(ops[0].event) else newest, ops[1..])
  }

  lemma RemoveKeepsFocus(q: seq<Event>, newest: Option<Event>, i: nat)
    requires i < |q| && FocusIsCurrent(q, newest)
    ensures FocusIsCurrent(RemoveAt(q, i), newest)
  {
    var r := RemoveAt(q, i);
    assert forall k :: 0 <= k < |r| ==> r[k] == q[if k < i then k else k + 1];
  }

  lemma NoFocusIsCurrent(q: seq<Event>, newest: Option<Event>)
    requires forall e :: e in q ==> !e.Focus?
    ensures FocusIsCurrent(q, newest)
  {
  }

  lemma AppendKeepsFocus(q: seq<Event>, newest: Option<Event>, e: Event)
    requires FocusIsCurrent(q, newest)
    requires e.Focus? ==> newest == Some(e) && forall x :: x in q ==> !x.Focus?
    ensures FocusIsCurrent(q + [e], newest)
  {
  }

  lemma PushKeepsFocus(q: seq<Event>, newest: Option<Event>, e: Event)
    requires FocusIsCurrent(q, newest)
    ensures FocusIsCurrent(Push(q, e), if e.Focus? then Some(e) else newest)
  {
    var kept := if e.Focus? then WithoutFocus(q) else q;
    var current := if e.Focus? then Some(e) else newest;
    if e.Focus? {
      NoFocusIsCurrent(kept, current);
    }
    if |kept| < CONTROL_EVENT_CAPACITY {
      AppendKeepsFocus(kept, current, e);
    } else if Push(q, e) != kept {
      var i := if FirstFocus(kept) < |kept| then FirstFocus(kept) else FirstOther(kept);
      RemoveKeepsFocus(kept, current, i);
      AppendKeepsFocus(RemoveAt(kept, i), current, e);
    }
  }

  /** On any interleaving, only the newest focus state can be waiting. */
  lemma {:induction false} OnlyNewestFocusWaits(q: seq<Event>, newest: Option<Event>, ops: seq<Op>)
    requires FocusIsCurrent(q, newest)
    ensures FocusIsCurrent(After(q, ops), NewestFocus(newest, ops))
    decreases |ops|
  {
    if ops != [] {
      if ops[0].PushOp? {
        PushKeepsFocus(q, newest, ops[0].event);
        var current := if ops[0].event.Focus? then Some(ops[0].event) else newest;
        OnlyNewestFocusWaits(Push(q, ops[0].event), current, ops[1..]);
      } else {
        OnlyNewestFocusWaits(Pop(q).0, newest, ops[1..]);
      }
    }
  }
}
