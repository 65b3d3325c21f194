/** The calls on a hash context, and what a whole run of them amounts to. */
module Session {
  import opened Bits
  import opened Bytes

  /** A call on a context; Finish is told whether its output pointer is not null. */
  datatype Call = Begin | Update(data: Input) | Finish(hasOutput: bool) | Reset

  datatype State = Idle | Open(bytes: seq<byte>)

  /** What one call does, call by call. */
  function Step(s: State, c: Call): State {
    match c
    case Begin => Open([])
    case Update(data) => if s.Open? then Open(s.bytes + Content(data)) else Idle
    case Finish(hasOutput) => if hasOutput then Idle else s
    case Reset => Idle
  }

  function Run(calls: seq<Call>): State {
    if calls == [] then Idle else Step(Run(calls[..|calls| - 1]), calls[|calls| - 1])
  }

  lemma RunNothing()
    ensures Run([]) == Idle
  {
  }

  lemma RunStep(calls: seq<Call>, c: Call)
    ensures Run(calls + [c]) == Step(Run(calls), c)
  {
    assert (calls + [c])[..|calls|] == calls;
  }

  // ---------- the same, looking at the run as a whole

  predicate Closes(c: Call) {
    c == Reset || c == Finish(true)
  }

  /** A Begin that nothing has closed. */
  predicate OpenFrom(calls: seq<Call>, b: nat) {
    b < |calls| && calls[b] == Begin && forall k | b < k < |calls| :: !Closes(calls[k])
  }

  ghost predicate Opened(calls: seq<Call>) {
    exists b: nat :: OpenFrom(calls, b)
  }

  predicate LatestBegin(calls: seq<Call>, b: nat) {
    b < |calls| && calls[b] == Begin && forall k | b < k < |calls| :: calls[k] != Begin
  }

  /** The bytes of all updates, in order. */
  function DataOf(calls: seq<Call>): seq<byte> {
    if calls == [] then []
    else DataOf(calls[..|calls| - 1]) + (if calls[|calls| - 1].Update? then Content(calls[|calls| - 1].data) else [])
  }

  /** After any run, a context is open exactly when some Begin has not been closed since. */
  lemma {:induction false} OpenIff(calls: seq<Call>)
    ensures Run(calls).Open? <==> Opened(calls)
  {
    if calls == [] {
      assert !Opened(calls);
    } else {
      var n := |calls| - 1;
      var before, c := calls[..n], calls[n];
      OpenIff(before);
      if c == Begin {
        assert OpenFrom(calls, n);
      } else {
        forall b: nat ensures OpenFrom(calls, b) <==> OpenFrom(before, b) && !Closes(c) {
          OpenFromStep(calls, b);
        }
      }
    }
  }

  lemma OpenFromStep(calls: seq<Call>, b: nat)
    requires calls != [] && calls[|calls| - 1] != Begin
    ensures OpenFrom(calls, b) <==> OpenFrom(calls[..|calls| - 1], b) && !Closes(calls[|calls| - 1])
  {
    var n := |calls| - 1;
    var before := calls[..n];
    if OpenFrom(before, b) && !Closes(calls[n]) {
      forall k | b < k < |calls| ensures !Closes(calls[k]) {
        if k < n { assert before[k] == calls[k]; }
      }
    }
    if OpenFrom(calls, b) {
      forall k | b < k < n ensures !Closes(before[k]) {
        assert before[k] == calls[k];
      }
    }
  }

  /** An open context holds the bytes of the updates since the latest Begin, and no others. */
  lemma {:induction false} OpenHolds(calls: seq<Call>, b: nat)
    requires Run(calls).Open? && LatestBegin(calls, b)
    ensures Run(calls) == Open(DataOf(calls[b + 1..]))
  {
    var n := |calls| - 1;
    var before, c := calls[..n], calls[n];
    if c == Begin {
      assert b == n && calls[b + 1..] == [];
    } else {
      forall k | b < k < n ensures before[k] != Begin {
        assert before[k] == calls[k];
      }
      OpenHolds(before, b);
      assert calls[b + 1..][..n - b - 1] == before[b + 1..];
    }
  }

  lemma OpenHoldsAll(calls: seq<Call>, m: seq<byte>)
    requires Run(calls) == Open(m)
    ensures forall b: nat | LatestBegin(calls, b) :: m == DataOf(calls[b + 1..])
  {
    forall b: nat | LatestBegin(calls, b) ensures m == DataOf(calls[b + 1..]) {
      OpenHolds(calls, b);
    }
  }

  /** An open context has a latest Begin. */
  lemma {:induction false} HasLatest(calls: seq<Call>) returns (b: nat)
    requires Run(calls).Open?
    ensures LatestBegin(calls, b)
  {
    var n := |calls| - 1;
    if calls[n] == Begin {
      b := n;
    } else {
      b := HasLatest(calls[..n]);
      forall k | b < k < |calls| ensures calls[k] != Begin {
        if k < n { assert calls[..n][k] == calls[k]; }
      }
    }
  }
}
