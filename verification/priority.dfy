/**
 * Request-parameter handling of the scheduler (reliascheduler/views/scheduler.py):
 * the priority of a new task, the identifier drawn for it, and the long-poll wait budget.
 */
module Priority {
  import opened Common
  import opened Strings

  const DefaultPriority: int := 10

  const DefaultWait: int := 25

  /**
   * The JSON value under "priority": absent, null, an integer, a string, or some other
   * truthy value (a non-empty list or object) that `int()` rejects. Absent also stands
   * for the other falsy values (`false`, `[]`, `{}`), which `or 10` turns into 10 just
   * as it does a missing key; `true` is `Number(1)`, as `int(True)` is 1.
   */
  datatype PriorityInput = Absent | JsonNull | Number(n: int) | Text(s: string) | Unparsable

  /**
   * `int(data.get('priority', 10) or 10)` followed by the range check. `None` is the
   * UnboundLocalError of the except branch, whose log message reads the never-assigned
   * `priority`: an unparsable priority fails the request instead of defaulting.
   */
  function NormalisePriority(p: PriorityInput, maxPriority: int): (r: Option<int>)
    ensures r.None? <==> p == Unparsable || (p.Text? && p.s != "" && ParseInt(p.s).None?)
    ensures r.Some? ==> (0 <= r.value <= maxPriority) || r.value == DefaultPriority
    ensures r.Some? && maxPriority >= DefaultPriority ==> 0 <= r.value <= maxPriority
    ensures p == Absent || p == JsonNull || p == Number(0) || p == Text("") ==> r == Some(DefaultPriority)
    ensures p.Number? && 0 <= p.n <= maxPriority && p.n != 0 ==> r == Some(p.n)
    ensures p.Number? && (p.n < 0 || p.n > maxPriority) ==> r == Some(DefaultPriority)
  {
    var parsed: Option<int> :=
      match p
      case Absent => Some(DefaultPriority)
      case JsonNull => Some(DefaultPriority)
      case Number(n) => Some(if n == 0 then DefaultPriority else n)
      case Text(s) => if s == "" then Some(DefaultPriority) else ParseInt(s)
      case Unparsable => None;
    match parsed
    case None => None
    case Some(n) => Some(if n < 0 || n > maxPriority then DefaultPriority else n)
  }

  /**
   * The priority the handler evidently means to compute: whatever `int()` rejects falls
   * back to the default, as the except branch intends, and so does a value out of range.
   */
  function IntendedPriority(p: PriorityInput, maxPriority: int): (r: int)
    ensures (0 <= r <= maxPriority) || r == DefaultPriority
    ensures maxPriority >= DefaultPriority ==> 0 <= r <= maxPriority
    ensures p.Number? && 0 < p.n <= maxPriority ==> r == p.n
    ensures p.Text? && ParseInt(p.s).Some? && 0 <= ParseInt(p.s).value <= maxPriority ==> r == ParseInt(p.s).value
    ensures p == Unparsable || (p.Text? && ParseInt(p.s).None?) ==> r == DefaultPriority
  {
    var requested :=
      match p
      case Number(n) => if n == 0 then DefaultPriority else n
      case Text(s) => ParseInt(s).GetOr(DefaultPriority)
      case _ => DefaultPriority;
    if requested < 0 || requested > maxPriority then DefaultPriority else requested
  }

  /**
   * Where the code as written produces a priority the intended one is the same; where it
   * raises, the intended one is the default.
   */
  lemma IntendedPriorityAgrees(p: PriorityInput, maxPriority: int)
    ensures NormalisePriority(p, maxPriority).Some? ==> NormalisePriority(p, maxPriority).value == IntendedPriority(p, maxPriority)
    ensures NormalisePriority(p, maxPriority).None? ==> IntendedPriority(p, maxPriority) == DefaultPriority
  {
  }

  /** A priority of "high" fails the request as written, where the default was meant. */
  lemma TextPriorityRaisesAsWritten(maxPriority: int)
    ensures NormalisePriority(Text("high"), maxPriority).None?
    ensures IntendedPriority(Text("high"), maxPriority) == DefaultPriority
  {
    assert !IsDigit('h');
  }

  /**
   * `max(min(int(max_seconds or '25'), 25), 1)`, where an argument `int()` rejects
   * also falls back to 25.
   */
  function WaitBudget(arg: Option<string>): (r: int)
    ensures 1 <= r <= DefaultWait
    ensures arg.None? || arg == Some("") || ParseInt(arg.value).None? ==> r == DefaultWait
    ensures arg.Some? && ParseInt(arg.value).Some? ==>
      var n := ParseInt(arg.value).value;
      r == (if n < 1 then 1 else if n > DefaultWait then DefaultWait else n)
  {
    var requested :=
      match arg
      case None => DefaultWait
      case Some(s) => if s == "" then DefaultWait else ParseInt(s).GetOr(DefaultWait);
    Max(Min(requested, DefaultWait), 1)
  }

  /**
   * The collision-retry loop: candidates are drawn in order until SADD reports one as new.
   * The result is the identifier and its position among the candidates.
   */
  function AllocateId(tasks: set<string>, candidates: seq<string>, from: nat): (r: Option<(string, nat)>)
    requires from <= |candidates|
    ensures r.Some? ==> from <= r.value.1 < |candidates| && candidates[r.value.1] == r.value.0
    ensures r.Some? ==> r.value.0 !in tasks
    ensures r.Some? ==> forall j | from <= j < r.value.1 :: candidates[j] in tasks
    ensures r.None? <==> forall j | from <= j < |candidates| :: candidates[j] in tasks
    decreases |candidates| - from
  {
    if from == |candidates| then None
    else if candidates[from] !in tasks then Some((candidates[from], from))
    else AllocateId(tasks, candidates, from + 1)
  }

  /** Two allocations in a row never hand out the same identifier. */
  lemma AllocatedIdsAreDistinct(tasks: set<string>, first: seq<string>, second: seq<string>)
    requires AllocateId(tasks, first, 0).Some?
    requires AllocateId(tasks + {AllocateId(tasks, first, 0).value.0}, second, 0).Some?
    ensures AllocateId(tasks + {AllocateId(tasks, first, 0).value.0}, second, 0).value.0
         != AllocateId(tasks, first, 0).value.0
  {
  }
}
