/** The two progress extractors run on every line of a build's output: which task
    is executing (`> Task :module:task`) and a high-level step counter (`[n/m]`).
    Both are unanchored regex searches, so each is the leftmost position where a
    hand-written matcher succeeds. */
module AmperProgressParser {
  import opened Wrappers
  import opened Text
  import opened Seqs

  // ---------------------------------------------------------------------------
  // Task marker: (?:> )?Task\s+(:[\w\-:]+)
  // ---------------------------------------------------------------------------

  /** The identifier class `[\w\-:]`. */
  predicate IsTaskIdChar(c: char) { IsWordChar(c) || c == '-' || c == ':' }

  /** A task identifier as the regex captures it: a colon, then at least one more
      character of the class. */
  predicate IsTaskId(id: string) {
    |id| >= 2 && id[0] == ':' && All(id, IsTaskIdChar)
  }

  /** The capture when `Task` starts at `p`. The whitespace run and the identifier
      run are greedy, and giving back any of either leaves a character the next part
      refuses, so the match exists only with both runs maximal. */
  function TaskAt(t: string, p: nat): (r: Option<string>)
    requires p <= |t|
    ensures r.Some? ==> IsTaskId(r.value)
  {
    if p + 4 <= |t| && t[p..p + 4] == "Task" then
      var e := RunEnd(t, p + 4, IsJsSpace);
      if e > p + 4 && e < |t| && t[e] == ':' then
        var j := RunEnd(t, e + 1, IsTaskIdChar);
        if j > e + 1 then Some(t[e..j]) else None
      else None
    else None
  }

  function TaskStarts(t: string): nat -> bool {
    (p: nat) => p <= |t| && TaskAt(t, p).Some?
  }

  /** `parseLine`. The optional `> ` in front only moves where the match starts, not
      what it captures, and two `Task` words cannot overlap, so the leftmost match is
      the one at the first `Task` from which the rest matches. */
  function ParseLine(line: string): (r: Option<string>)
    ensures r.Some? ==> IsTaskId(r.value)
  {
    match FirstWhere(TaskStarts(line), 0, |line|)
    case Some(p) => TaskAt(line, p)
    case None => None
  }

  /** Nothing is read exactly when no position starts a match. */
  lemma ParseLineNone(line: string)
    ensures ParseLine(line).None? <==> forall p :: 0 <= p <= |line| ==> TaskAt(line, p).None?
  {
    match FirstWhere(TaskStarts(line), 0, |line|)
    case Some(p) =>
      assert TaskStarts(line)(p);
    case None =>
      forall p | 0 <= p <= |line|
        ensures TaskAt(line, p).None?
      {
        assert !TaskStarts(line)(p);
      }
  }

  /** The capture is the first one in the line, and it is maximal: the character
      after it, if any, is outside the identifier class. */
  lemma ParseLineFirstMaximal(line: string)
    requires ParseLine(line).Some?
    ensures exists p :: (
      && 0 <= p <= |line| && TaskAt(line, p) == ParseLine(line)
      && (forall q :: 0 <= q < p ==> TaskAt(line, q).None?)
      && (var end := RunEnd(line, p + 4, IsJsSpace) + |ParseLine(line).value|;
          end <= |line| && (end == |line| || !IsTaskIdChar(line[end]))))
  {
    var p := FirstWhere(TaskStarts(line), 0, |line|).value;
    assert TaskAt(line, p) == ParseLine(line);
    forall q | 0 <= q < p
      ensures TaskAt(line, q).None?
    {
      assert !TaskStarts(line)(q);
    }
  }

  /** A `Task` marker followed by an identifier is read back exactly, with or without
      the `> ` in front. */
  lemma ParseLineMarker(pre: string, id: string)
    requires pre == "" || pre == "> "
    requires IsTaskId(id)
    ensures ParseLine(pre + "Task " + id) == Some(id)
  {
    var t := pre + "Task " + id;
    var p := |pre|;
    MarkerAt(pre, id);
    MarkerLayout(pre, id);
    forall q | 0 <= q < p
      ensures !TaskStarts(t)(q)
    {
      assert t[q] == pre[q];
    }
    assert TaskStarts(t)(p);
    FirstWhereIs(TaskStarts(t), 0, |t|, p);
  }

  /** Where the parts of a marker line sit. */
  lemma MarkerLayout(pre: string, id: string)
    ensures var t, p := pre + "Task " + id, |pre|;
      && |t| == p + 5 + |id| && t[..p] == pre && t[p..p + 4] == "Task" && t[p + 4] == ' '
      && t[p + 5..|t|] == id
  {
  }

  /** The match at the `Task` of a marker captures the identifier. */
  lemma MarkerAt(pre: string, id: string)
    requires IsTaskId(id)
    ensures var t := pre + "Task " + id;
      TaskAt(t, |pre|) == Some(id)
  {
    var t := pre + "Task " + id;
    var p := |pre|;
    MarkerLayout(pre, id);
    assert t[p + 5] == id[0] == ':';
    RunEndIs(t, p + 4, p + 5, IsJsSpace);
    forall k | p + 6 <= k < |t|
      ensures IsTaskIdChar(t[k])
    {
      assert t[k] == id[k - p - 5];
    }
    RunEndIs(t, p + 6, |t|, IsTaskIdChar);
  }

  // ---------------------------------------------------------------------------
  // Step counter: \[(\d+)\/(\d+)\]
  // ---------------------------------------------------------------------------

  datatype Step = Step(current: nat, total: nat)

  /** The two digit runs of a step pair opening at `k`, as positions: where the
      first run ends (at the `/`) and where the second ends (at the `]`). Both runs
      are greedy and a shorter one would leave a digit where `/` or `]` is needed. */
  function StepAt(t: string, k: nat): (r: Option<(nat, nat)>)
    requires k <= |t|
    ensures r.Some? ==> k + 1 < r.value.0 < r.value.1 < |t|
    ensures r.Some? ==> t[k] == '[' && t[r.value.0] == '/' && t[r.value.1] == ']'
    ensures r.Some? ==> All(t[k + 1..r.value.0], IsDigit) && All(t[r.value.0 + 1..r.value.1], IsDigit)
    ensures r.Some? ==> r.value.1 > r.value.0 + 1
  {
    if k < |t| && t[k] == '[' then
      var d1 := RunEnd(t, k + 1, IsDigit);
      if d1 > k + 1 && d1 < |t| && t[d1] == '/' then
        var d2 := RunEnd(t, d1 + 1, IsDigit);
        if d2 > d1 + 1 && d2 < |t| && t[d2] == ']' then Some((d1, d2)) else None
      else None
    else None
  }

  function StepStarts(t: string): nat -> bool {
    (k: nat) => k <= |t| && StepAt(t, k).Some?
  }

  /** `parseStep`: the leftmost pair, both numbers read as decimal. Nothing checks
      that the current step is at most the total. */
  function ParseStep(line: string): (r: Option<Step>)
  {
    match FirstWhere(StepStarts(line), 0, |line|)
    case Some(k) =>
      var (d1, d2) := StepAt(line, k).value;
      Some(Step(DecimalValue(line[k + 1..d1]), DecimalValue(line[d1 + 1..d2])))
    case None => None
  }

  /** Nothing is read exactly when no position starts a pair. */
  lemma ParseStepNone(line: string)
    ensures ParseStep(line).None? <==> forall k :: 0 <= k <= |line| ==> StepAt(line, k).None?
  {
    match FirstWhere(StepStarts(line), 0, |line|)
    case Some(k) =>
      assert StepStarts(line)(k);
    case None =>
      forall k | 0 <= k <= |line|
        ensures StepAt(line, k).None?
      {
        assert !StepStarts(line)(k);
      }
  }

  /** The numbers read are the two digit runs of the first pair in the line. */
  lemma ParseStepFirst(line: string)
    requires ParseStep(line).Some?
    ensures exists k :: (
      && 0 <= k <= |line| && StepAt(line, k).Some?
      && (forall q :: 0 <= q < k ==> StepAt(line, q).None?)
      && var (d1, d2) := StepAt(line, k).value;
         ParseStep(line).value == Step(DecimalValue(line[k + 1..d1]), DecimalValue(line[d1 + 1..d2])))
  {
    var k := FirstWhere(StepStarts(line), 0, |line|).value;
    forall q | 0 <= q < k
      ensures StepAt(line, q).None?
    {
      assert !StepStarts(line)(q);
    }
  }

  /** Decimal text of a number, without leading zeros. */
  function DecimalText(n: nat): (r: string)
    ensures |r| > 0 && All(r, IsDigit)
    decreases n
  {
    var d := ['0' + (n % 10) as char];
    if n < 10 then d else DecimalText(n / 10) + d
  }

  /** Reading the decimal text of a number gives the number back. */
  lemma {:induction false} DecimalRoundTrip(n: nat)
    ensures DecimalValue(DecimalText(n)) == n
    decreases n
  {
    var s := DecimalText(n);
    if n >= 10 {
      DecimalRoundTrip(n / 10);
      assert s[..|s| - 1] == DecimalText(n / 10);
    }
  }

  /** The text of a step pair. */
  function StepText(s: Step): string {
    "[" + DecimalText(s.current) + "/" + DecimalText(s.total) + "]"
  }

  /** A step pair is read back as the numbers it shows, whichever is larger. */
  lemma ParseStepText(s: Step)
    ensures ParseStep(StepText(s)) == Some(s)
  {
    var a, b := DecimalText(s.current), DecimalText(s.total);
    var t := StepText(s);
    var d1 := 1 + |a|;
    var d2 := d1 + 1 + |b|;
    assert t[1..d1] == a;
    assert t[d1] == '/';
    RunEndIs(t, 1, d1, IsDigit);
    assert t[d1 + 1..d2] == b;
    assert t[d2] == ']';
    RunEndIs(t, d1 + 1, d2, IsDigit);
    assert StepAt(t, 0) == Some((d1, d2));
    DecimalRoundTrip(s.current);
    DecimalRoundTrip(s.total);
  }

  /** A current step beyond the total is passed through as it is. */
  lemma StepNotBounded()
    ensures ParseStep(StepText(Step(2, 1))) == Some(Step(2, 1))
  {
    ParseStepText(Step(2, 1));
  }
}
