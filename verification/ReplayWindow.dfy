/** The receiver's sliding window over authenticated nonce sequences. */
module ReplayWindow {
  import opened Wrappers
  import opened Octets

  const NONCE_REPLAY_WINDOW := 4096

  datatype Window = Window(highest: Option<u64>, accepted: set<u64>)

  const EMPTY := Window(None, {})

  /** `commit_authenticated`: the window after one authenticated sequence, and whether it was accepted. */
  function Commit(w: Window, sequence: u64): (Window, bool) {
    if sequence in w.accepted then (w, false)
    else if w.highest.Some? && sequence <= w.highest.value && w.highest.value - sequence >= NONCE_REPLAY_WINDOW then
      (w, false)
    else
      var highest := if w.highest.None? || w.highest.value < sequence then sequence else w.highest.value;
      (Window(Some(highest), set x | x in w.accepted + {sequence} && highest - x < NONCE_REPLAY_WINDOW), true)
  }

  class NonceReplayWindow {
    var highest: Option<u64>
    var accepted: set<u64>

    function Contents(): Window
      reads this
    {
      Window(highest, accepted)
    }

    constructor ()
      ensures Contents() == EMPTY
    {
      highest := None;
      accepted := {};
    }

    method CommitAuthenticated(sequence: u64) returns (ok: bool)
      modifies this
      ensures (Contents(), ok) == Commit(old(Contents()), sequence)
    {
      if sequence in accepted {
        return false;
      }
      if highest.Some? && sequence <= highest.value && highest.value - sequence >= NONCE_REPLAY_WINDOW {
        return false;
      }
      var top := if highest.Some? && sequence <= highest.value then highest.value else sequence;
      accepted := accepted + {sequence};
      highest := Some(top);
      accepted := set x | x in accepted && top - x < NONCE_REPLAY_WINDOW;
      ok := true;
    }
  }

  // ---- Against unbounded history -----------------------------------------------------------

  /** The rule, stated over everything ever accepted: never twice, and less than 4096 below the highest. */
  ghost predicate Admissible(history: set<u64>, sequence: u64) {
    sequence !in history && forall h :: h in history ==> h < sequence + NONCE_REPLAY_WINDOW
  }

  /** What remains of a history: its maximum, and its part less than 4096 below the maximum. */
  ghost predicate Summarises(w: Window, history: set<u64>) {
    if history == {} then w == EMPTY
    else
      && w.highest.Some?
      && w.highest.value in history
      && (forall h :: h in history ==> h <= w.highest.value)
      && w.accepted == set h | h in history && w.highest.value - h < NONCE_REPLAY_WINDOW
  }

  /** The pruned window decides exactly as the unbounded history would, and stays its summary. */
  lemma WindowDecidesLikeHistory(w: Window, history: set<u64>, sequence: u64)
    requires Summarises(w, history)
    ensures Commit(w, sequence).1 <==> Admissible(history, sequence)
    ensures Summarises(Commit(w, sequence).0, if Commit(w, sequence).1 then history + {sequence} else history)
  {
    if history != {} {
      assert Admissible(history, sequence) <==>
        sequence !in history && w.highest.value < sequence + NONCE_REPLAY_WINDOW;
    }
    if Commit(w, sequence).1 {
      var highest := Commit(w, sequence).0.highest.value;
      forall h | h in history + {sequence} && highest - h < NONCE_REPLAY_WINDOW
        ensures h in w.accepted + {sequence}
      {
        if h != sequence { assert history != {} && h in history && w.highest.value - h < NONCE_REPLAY_WINDOW; }
      }
      assert history == {} ==> w.accepted == {};
      assert Commit(w, sequence).0.accepted == set h | h in history + {sequence} && highest - h < NONCE_REPLAY_WINDOW;
    }
  }

  /** The window after a run of authenticated sequences. */
  function After(sequences: seq<u64>): Window {
    if sequences == [] then EMPTY else Commit(After(sequences[..|sequences| - 1]), sequences[|sequences| - 1]).0
  }

  /** Everything such a run should have accepted, by the rule alone. */
  ghost function HistoryOf(sequences: seq<u64>): set<u64> {
    if sequences == [] then {}
    else
      var before := HistoryOf(sequences[..|sequences| - 1]);
      var last := sequences[|sequences| - 1];
      if Admissible(before, last) then before + {last} else before
  }

  /** Over whole runs: the next sequence is accepted iff the full history admits it. */
  lemma {:induction false} RunDecidesLikeHistory(sequences: seq<u64>, next: u64)
    ensures Summarises(After(sequences), HistoryOf(sequences))
    ensures Commit(After(sequences), next).1 <==> Admissible(HistoryOf(sequences), next)
  {
    if sequences != [] {
      RunDecidesLikeHistory(sequences[..|sequences| - 1], sequences[|sequences| - 1]);
      var init, last := sequences[..|sequences| - 1], sequences[|sequences| - 1];
      WindowDecidesLikeHistory(After(init), HistoryOf(init), last);
    }
    WindowDecidesLikeHistory(After(sequences), HistoryOf(sequences), next);
  }
}
