/**
 Reply-completion polling: once the query is submitted, the script reads the
 reply region once per tick and declares the reply complete when two
 successive stored readings agree after whitespace stripping.
 The page is abstracted as the sequence of reads it yields, one per tick.
 */
module Polling {
  import opened Text

  /** Tick budget of the polling loop (one tick is nominally one second). */
  const MaxTicks: nat := 1800

  /** Substring shown while the reply is still being generated. */
  const InterimMarker: string := "与 DeepSeek R1 生成"

  /** Text returned when the budget runs out with nothing stored. */
  const TimeoutSentinel: string := "回复超时，未获取到完整回复"

  /** What one read of the reply region yields. */
  datatype Read =
    | Content(text: string)  // the element's text content
    | NoContent              // the element has no text content (None)
    | ReadError              // locating or reading the element raised

  /** Outcome of the polling loop: the reply, and whether it was declared complete. */
  datatype PollResult =
    | Completed(reply: string, ticks: nat)  // reply declared complete at tick `ticks` (1-based)
    | TimedOut(reply: string)               // budget exhausted

  /** The reply text as read at one tick: every failure becomes the empty string. */
  function GetAiResponse(r: Read): (s: string)
    ensures r.Content? ==> s == r.text
    ensures !r.Content? ==> s == ""
  {
    if r.Content? then r.text else ""
  }

  /** A reading that shows the interim marker is skipped. */
  predicate Interim(response: string) {
    Contains(response, InterimMarker)
  }

  /** The completion test: the stored reading is non-blank and equal to the new one once both are stripped. */
  predicate Stable(prev: string, response: string) {
    |Trim(prev)| > 0 && Trim(prev) == Trim(response)
  }

  /** What the loop returns when the budget is exhausted. */
  function Fallback(prev: string): (r: string)
    ensures r != ""
    ensures prev != "" ==> r == prev
    ensures prev == "" ==> r == TimeoutSentinel
  {
    if prev != "" then prev else TimeoutSentinel
  }

  /** The reading taken at tick `i`. */
  function Observed(trace: seq<Read>, i: nat): string
    requires i < |trace|
  {
    GetAiResponse(trace[i])
  }

  /**
   The polling loop from tick `i` on, with `prev` the stored reading.
   A completed reply is the untrimmed reading of its last tick; a timed-out one is never empty.
   */
  function PollFrom(trace: seq<Read>, budget: nat, i: nat, prev: string): (r: PollResult)
    requires i <= budget <= |trace|
    ensures r.Completed? ==> i < r.ticks <= budget && r.reply == Observed(trace, r.ticks - 1)
    ensures r.TimedOut? ==> r.reply != ""
    decreases budget - i
  {
    if i == budget then
      TimedOut(Fallback(prev))
    else
      var response := Observed(trace, i);
      if Interim(response) then
        PollFrom(trace, budget, i + 1, prev)
      else if Stable(prev, response) then
        Completed(response, i + 1)
      else
        PollFrom(trace, budget, i + 1, response)
  }

  /** The whole polling run, starting with an empty stored reading. */
  function Poll(trace: seq<Read>, budget: nat): PollResult
    requires budget <= |trace|
  {
    PollFrom(trace, budget, 0, "")
  }

  /** The loop of the script, tick by tick, over the page's trace. */
  method WaitForAiResponse(trace: seq<Read>, budget: nat) returns (r: PollResult)
    requires budget <= |trace|
    ensures r == Poll(trace, budget)
    ensures r.Completed? ==> r.ticks <= budget && !Interim(r.reply) && Trim(r.reply) != ""
  {
    var prev := "";
    for i := 0 to budget
      invariant PollFrom(trace, budget, i, prev) == Poll(trace, budget)
    {
      var response := GetAiResponse(trace[i]);
      if Contains(response, InterimMarker) {
        continue;
      }
      if |Trim(prev)| > 0 && Trim(prev) == Trim(response) {
        r := Completed(response, i + 1);
        return;
      }
      prev := response;
    }
    r := TimedOut(if prev != "" then prev else TimeoutSentinel);
  }

  /*
   A reference definition of the loop state: the stored reading after `n`
   ticks, had none of them completed the run.
   */
  function PrevAfter(trace: seq<Read>, n: nat): string
    requires n <= |trace|
  {
    if n == 0 then ""
    else if Interim(Observed(trace, n - 1)) then PrevAfter(trace, n - 1)
    else Observed(trace, n - 1)
  }

  /** Tick `t` completes the run, given the stored reading the earlier ticks leave. */
  predicate CompletesAt(trace: seq<Read>, t: nat)
    requires t < |trace|
  {
    !Interim(Observed(trace, t)) && Stable(PrevAfter(trace, t), Observed(trace, t))
  }

  /** One tick of the loop: a completing tick ends the run with its reading, any other hands on the stored reading. */
  lemma TickStep(trace: seq<Read>, budget: nat, i: nat)
    requires i < budget <= |trace|
    ensures CompletesAt(trace, i) ==>
      PollFrom(trace, budget, i, PrevAfter(trace, i)) == Completed(Observed(trace, i), i + 1)
    ensures !CompletesAt(trace, i) ==>
      PollFrom(trace, budget, i, PrevAfter(trace, i)) == PollFrom(trace, budget, i + 1, PrevAfter(trace, i + 1))
  {
  }

  /** Until the run stops, the run from tick `i` is the run from any later tick `t`, with the stored reading `PrevAfter` gives. */
  lemma {:induction false} RunReachesTick(trace: seq<Read>, budget: nat, i: nat, t: nat)
    requires i <= t <= budget <= |trace|
    requires PollFrom(trace, budget, i, PrevAfter(trace, i)).Completed? ==>
      t < PollFrom(trace, budget, i, PrevAfter(trace, i)).ticks
    ensures PollFrom(trace, budget, t, PrevAfter(trace, t)) == PollFrom(trace, budget, i, PrevAfter(trace, i))
    decreases t - i
  {
    if i < t {
      TickStep(trace, budget, i);
      RunReachesTick(trace, budget, i + 1, t);
    }
  }

  /** A run from tick `i` that completes does so at a completing tick. */
  lemma CompletedAtCompletingTick(trace: seq<Read>, budget: nat, i: nat)
    requires i <= budget <= |trace|
    requires PollFrom(trace, budget, i, PrevAfter(trace, i)).Completed?
    ensures CompletesAt(trace, PollFrom(trace, budget, i, PrevAfter(trace, i)).ticks - 1)
  {
    var j := PollFrom(trace, budget, i, PrevAfter(trace, i)).ticks - 1;
    RunReachesTick(trace, budget, i, j);
    TickStep(trace, budget, j);
  }

  /** No tick from `i` up to where the run stops completes it, other than the last one. */
  lemma NoEarlierCompletion(trace: seq<Read>, budget: nat, i: nat, t: nat)
    requires i <= t < budget <= |trace|
    requires PollFrom(trace, budget, i, PrevAfter(trace, i)).Completed? ==>
      t < PollFrom(trace, budget, i, PrevAfter(trace, i)).ticks - 1
    ensures !CompletesAt(trace, t)
  {
    RunReachesTick(trace, budget, i, t);
    TickStep(trace, budget, t);
  }

  /** A run from tick `i` that times out returns the fallback of the stored reading at the end of the budget. */
  lemma TimedOutOnLastStored(trace: seq<Read>, budget: nat, i: nat)
    requires i <= budget <= |trace|
    requires PollFrom(trace, budget, i, PrevAfter(trace, i)).TimedOut?
    ensures PollFrom(trace, budget, i, PrevAfter(trace, i)).reply == Fallback(PrevAfter(trace, budget))
  {
    RunReachesTick(trace, budget, i, budget);
  }

  /** The run completes exactly when some tick within the budget completes it, and then at the first such tick. */
  lemma PollCompletesAtFirstStableTick(trace: seq<Read>, budget: nat)
    requires budget <= |trace|
    ensures Poll(trace, budget).Completed? <==> exists t :: 0 <= t < budget && CompletesAt(trace, t)
    ensures Poll(trace, budget).Completed? ==>
      var k := Poll(trace, budget).ticks;
      && 1 <= k <= budget
      && CompletesAt(trace, k - 1)
      && Poll(trace, budget).reply == Observed(trace, k - 1)
      && forall t :: 0 <= t < k - 1 ==> !CompletesAt(trace, t)
  {
    assert PrevAfter(trace, 0) == "";
    var r := Poll(trace, budget);
    if r.Completed? {
      CompletedAtCompletingTick(trace, budget, 0);
      forall t | 0 <= t < r.ticks - 1 ensures !CompletesAt(trace, t) {
        NoEarlierCompletion(trace, budget, 0, t);
      }
    } else {
      forall t | 0 <= t < budget ensures !CompletesAt(trace, t) {
        NoEarlierCompletion(trace, budget, 0, t);
      }
    }
  }

  /** When no tick completes the run, it times out with the last stored reading, or the sentinel if that is empty. */
  lemma PollTimesOutWithLastStored(trace: seq<Read>, budget: nat)
    requires budget <= |trace|
    requires forall t :: 0 <= t < budget ==> !CompletesAt(trace, t)
    ensures Poll(trace, budget) == TimedOut(Fallback(PrevAfter(trace, budget)))
  {
    assert PrevAfter(trace, 0) == "";
    if Poll(trace, budget).Completed? {
      CompletedAtCompletingTick(trace, budget, 0);
    } else {
      TimedOutOnLastStored(trace, budget, 0);
    }
  }

  /**
   Whether it completes or times out, the run never hands back an empty string:
   a completed reply is not whitespace only, and a timed-out one is the last
   stored reading or the sentinel.
   */
  lemma PollReplyNeverEmpty(trace: seq<Read>, budget: nat)
    requires budget <= |trace|
    ensures Poll(trace, budget).reply != ""
    ensures Poll(trace, budget).Completed? ==>
      Trim(Poll(trace, budget).reply) != "" && !AllSpace(Poll(trace, budget).reply)
    ensures Poll(trace, budget).TimedOut? ==>
      Poll(trace, budget).reply == Fallback(PrevAfter(trace, budget))
  {
    var r := Poll(trace, budget);
    PollCompletesAtFirstStableTick(trace, budget);
    if r.Completed? {
      TrimEmptyIffAllSpace(r.reply);
      assert Trim("") == "";
    } else {
      PollTimesOutWithLastStored(trace, budget);
    }
  }

  /** A reading that shows the interim marker neither ends the run nor changes the stored reading. */
  lemma InterimTickSkipped(trace: seq<Read>, budget: nat, i: nat, prev: string)
    requires i < budget <= |trace|
    requires Interim(Observed(trace, i))
    ensures PollFrom(trace, budget, i, prev) == PollFrom(trace, budget, i + 1, prev)
    ensures !CompletesAt(trace, i) && PrevAfter(trace, i + 1) == PrevAfter(trace, i)
  {
  }

  /** A reading that is neither interim nor stable replaces the stored reading, and nothing else changes. */
  lemma UnstableTickStored(trace: seq<Read>, budget: nat, i: nat, prev: string)
    requires i < budget <= |trace|
    requires !Interim(Observed(trace, i)) && !Stable(prev, Observed(trace, i))
    ensures PollFrom(trace, budget, i, prev) == PollFrom(trace, budget, i + 1, Observed(trace, i))
  {
  }

  /** A failed or empty read never completes the run and resets the stored reading to the empty string. */
  lemma EmptyReadResets(trace: seq<Read>, budget: nat, i: nat, prev: string)
    requires i < budget <= |trace|
    requires Observed(trace, i) == ""
    ensures PollFrom(trace, budget, i, prev) == PollFrom(trace, budget, i + 1, "")
    ensures !CompletesAt(trace, i) && PrevAfter(trace, i + 1) == ""
  {
  }

  /** A read that raises, or finds no text, is an empty reading. */
  lemma FailedReadIsEmpty(r: Read)
    requires !r.Content?
    ensures GetAiResponse(r) == "" && !Interim(GetAiResponse(r))
  {
  }

  /** If every remaining reading shows the interim marker, the run times out on the reading stored before them. */
  lemma {:induction false} AllInterimTimesOut(trace: seq<Read>, budget: nat, i: nat, prev: string)
    requires i <= budget <= |trace|
    requires forall t :: i <= t < budget ==> Interim(Observed(trace, t))
    ensures PollFrom(trace, budget, i, prev) == TimedOut(Fallback(prev))
    decreases budget - i
  {
    if i < budget {
      AllInterimTimesOut(trace, budget, i + 1, prev);
    }
  }

  /** Interim readings between two ticks leave the stored reading as the first of them left it. */
  lemma {:induction false} PrevAfterSkipsInterim(trace: seq<Read>, t1: nat, t2: nat)
    requires t1 < t2 <= |trace|
    requires !Interim(Observed(trace, t1))
    requires forall t :: t1 < t < t2 ==> Interim(Observed(trace, t))
    ensures PrevAfter(trace, t2) == Observed(trace, t1)
    decreases t2
  {
    if t2 > t1 + 1 {
      PrevAfterSkipsInterim(trace, t1, t2 - 1);
    }
  }

  /**
   Two successive non-interim readings within the budget that agree, stripped and non-blank,
   make the run complete, at the second of them at the latest.
   */
  lemma StableReadingsComplete(trace: seq<Read>, budget: nat, t1: nat, t2: nat)
    requires t1 < t2 < budget <= |trace|
    requires !Interim(Observed(trace, t1)) && !Interim(Observed(trace, t2))
    requires forall t :: t1 < t < t2 ==> Interim(Observed(trace, t))
    requires Trim(Observed(trace, t1)) != "" && Trim(Observed(trace, t1)) == Trim(Observed(trace, t2))
    ensures Poll(trace, budget).Completed? && Poll(trace, budget).ticks <= t2 + 1
  {
    PrevAfterSkipsInterim(trace, t1, t2);
    assert CompletesAt(trace, t2);
    PollCompletesAtFirstStableTick(trace, budget);
  }

  /** The run reads nothing beyond its budget. */
  lemma {:induction false} PollFromUsesBudgetPrefix(trace: seq<Read>, budget: nat, i: nat, prev: string)
    requires i <= budget <= |trace|
    ensures PollFrom(trace, budget, i, prev) == PollFrom(trace[..budget], budget, i, prev)
    decreases budget - i
  {
    if i < budget {
      assert Observed(trace, i) == Observed(trace[..budget], i);
      PollFromUsesBudgetPrefix(trace, budget, i + 1, prev);
      PollFromUsesBudgetPrefix(trace, budget, i + 1, Observed(trace, i));
    }
  }

  /** At most `budget` reads are consumed: the outcome depends on the first `budget` reads only. */
  lemma PollUsesBudgetPrefix(trace: seq<Read>, budget: nat)
    requires budget <= |trace|
    ensures Poll(trace, budget) == Poll(trace[..budget], budget)
    ensures Poll(trace, budget).Completed? ==> Poll(trace, budget).ticks <= budget
  {
    PollFromUsesBudgetPrefix(trace, budget, 0, "");
  }

  /** An empty reading, an interim one, then the same text twice: complete at the fourth tick. */
  lemma ScenarioStabilises()
    ensures Poll([Content(""), Content("thinking: " + InterimMarker), Content("partial"), Content("partial")], 4)
         == Completed("partial", 4)
  {
    var trace := [Content(""), Content("thinking: " + InterimMarker), Content("partial"), Content("partial")];
    assert !Interim("partial") && Trim("partial") == "partial";
    assert PollFrom(trace, 4, 3, "partial") == Completed("partial", 4);
    assert PollFrom(trace, 4, 2, "") == Completed("partial", 4);
    assert OccursAt(Observed(trace, 1), InterimMarker, 10);
    ContainsSpec(Observed(trace, 1), InterimMarker);
    assert PollFrom(trace, 4, 1, "") == Completed("partial", 4);
    assert !Interim("") && Trim("") == "";
  }

  /** Five distinct readings with a budget of five: time out on the last one. */
  lemma ScenarioNeverRepeats()
    ensures Poll([Content("a"), Content("b"), Content("c"), Content("d"), Content("e")], 5) == TimedOut("e")
  {
    var trace := [Content("a"), Content("b"), Content("c"), Content("d"), Content("e")];
    assert !Interim("e") && Trim("d") == "d" && Trim("e") == "e";
    assert PollFrom(trace, 5, 4, "d") == TimedOut("e");
    assert !Interim("d") && Trim("c") == "c";
    assert PollFrom(trace, 5, 3, "c") == TimedOut("e");
    assert !Interim("c") && Trim("b") == "b";
    assert PollFrom(trace, 5, 2, "b") == TimedOut("e");
    assert !Interim("b") && Trim("a") == "a";
    assert PollFrom(trace, 5, 1, "a") == TimedOut("e");
    assert !Interim("a");
  }
}
