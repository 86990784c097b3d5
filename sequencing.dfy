/**
 * The body of `get_commands` in main.py after the database is opened: the
 * raw commands of every configured query are merged, sorted by id, each gets
 * its delay written into the `<DELAY>` placeholder, and only the texts are
 * kept. `Commands` is the specification; `GetCommands` is the step-by-step
 * version on a mutable list, proved to compute it.
 */
module Sequencing {
  import opened Wrappers
  import opened PyStr
  import opened Utils
  import opened Extraction
  import opened Ordering

  /**
   * One configured query: the rows its SQL returned (the database is not
   * modelled), its regex (absent when the configuration has none) and its
   * script template.
   */
  datatype Query = Query(rows: seq<Row>, regex: Option<string>, script: string)

  /** The delay placeholder of a script line. */
  const Delay := "<DELAY>"

  /** `script_cmds`: the raw commands of every query, queries in configured order. */
  function Merge(queries: seq<Query>, search: Search): (r: seq<Cmd>)
    ensures queries == [] ==> r == []
  {
    if queries == [] then []
    else GetRawCmds(queries[0].rows, queries[0].regex, queries[0].script, search) + Merge(queries[1..], search)
  }

  /** Merging two runs of queries is concatenating their merges. */
  lemma {:induction false} MergeAppend(q1: seq<Query>, q2: seq<Query>, search: Search)
    ensures Merge(q1 + q2, search) == Merge(q1, search) + Merge(q2, search)
    decreases |q1|
  {
    if q1 == [] {
      assert q1 + q2 == q2;
    } else {
      var q := q1[0];
      var head := GetRawCmds(q.rows, q.regex, q.script, search);
      MergeAppend(q1[1..], q2, search);
      assert (q1 + q2)[0] == q && (q1 + q2)[1..] == q1[1..] + q2;
      assert Merge(q1 + q2, search) == head + Merge(q1[1..] + q2, search);
      assert Merge(q1, search) == head + Merge(q1[1..], search);
    }
  }

  /** `config['delay']['mode'].lower() == 'inherited'`. */
  predicate Inherited(mode: string) {
    AsciiLower(mode) == "inherited"
  }

  /** The delay before `curr` when `prev` precedes it. */
  function DelayFor(mode: string, value: string, prev: Cmd, curr: Cmd): string {
    if Inherited(mode) then IntToString(curr.timestamp - prev.timestamp) else value
  }

  /** The final text of the current command of one `(prev, curr)` pair. */
  function Resolve(pair: (Option<Cmd>, Cmd), mode: string, value: string): string {
    match pair.0
    case None => Strip(ReplaceAll(pair.1.text, Delay, "0"))
    case Some(prev) => Strip(ReplaceAll(pair.1.text, Delay, DelayFor(mode, value, prev, pair.1)))
  }

  /** The sorted commands after the delay loop: each one's text resolved against its predecessor. */
  function ResolveAll(sorted: seq<Cmd>, mode: string, value: string): (r: seq<Cmd>)
    ensures |r| == |sorted|
  {
    var pairs := PreviousAndNext(sorted);
    seq(|pairs|, k requires 0 <= k < |pairs| => pairs[k].1.(text := Resolve(pairs[k], mode, value)))
  }

  lemma ResolveAllAt(sorted: seq<Cmd>, mode: string, value: string, k: int)
    requires 0 <= k < |sorted|
    ensures PreviousAndNext(sorted)[k].1 == sorted[k]
    ensures ResolveAll(sorted, mode, value)[k]
         == sorted[k].(text := Resolve(PreviousAndNext(sorted)[k], mode, value))
  {
    PreviousAndNextAt(sorted, k);
  }

  /** `[cmd[2] for cmd in script_cmds]`. */
  function Texts(cmds: seq<Cmd>): (r: seq<string>)
    ensures |r| == |cmds|
  {
    seq(|cmds|, k requires 0 <= k < |cmds| => cmds[k].text)
  }

  /** What `get_commands` returns for the merged raw commands. */
  function Commands(merged: seq<Cmd>, mode: string, value: string): (lines: seq<string>)
    ensures |lines| == |merged|
  {
    Texts(ResolveAll(SortById(merged), mode, value))
  }

  /** The first command in id order gets delay "0", whatever the mode. */
  lemma CommandsFirst(merged: seq<Cmd>, mode: string, value: string)
    requires |merged| > 0
    ensures Commands(merged, mode, value)[0] == Strip(ReplaceAll(SortById(merged)[0].text, Delay, "0"))
  {
    PreviousAndNextAt(SortById(merged), 0);
  }

  /** Every later command gets the delay computed from itself and its predecessor in id order. */
  lemma CommandsLater(merged: seq<Cmd>, mode: string, value: string, k: nat)
    requires 0 < k < |merged|
    ensures var s := SortById(merged);
      Commands(merged, mode, value)[k] == Strip(ReplaceAll(s[k].text, Delay, DelayFor(mode, value, s[k - 1], s[k])))
  {
    PreviousAndNextAt(SortById(merged), k);
  }

  /**
   * In inherited mode the delay is the timestamp difference to the
   * predecessor, written as a decimal numeral that reads back as that difference.
   */
  lemma InheritedDelay(merged: seq<Cmd>, mode: string, value: string, k: nat)
    requires Inherited(mode) && 0 < k < |merged|
    ensures var s := SortById(merged);
      var d := IntToString(s[k].timestamp - s[k - 1].timestamp);
      IsDecimal(d) && ParseInt(d) == s[k].timestamp - s[k - 1].timestamp &&
      Commands(merged, mode, value)[k] == Strip(ReplaceAll(s[k].text, Delay, d))
  {
    var s := SortById(merged);
    CommandsLater(merged, mode, value, k);
    IntToStringRoundTrip(s[k].timestamp - s[k - 1].timestamp);
  }

  /** In any other mode every later command gets the configured value. */
  lemma FixedDelay(merged: seq<Cmd>, mode: string, value: string, k: nat)
    requires !Inherited(mode) && 0 < k < |merged|
    ensures Commands(merged, mode, value)[k] == Strip(ReplaceAll(SortById(merged)[k].text, Delay, value))
  {
    CommandsLater(merged, mode, value, k);
  }

  /** A command whose text has no `<DELAY>` is only stripped, first or not. */
  lemma ResolveWithoutPlaceholder(pair: (Option<Cmd>, Cmd), mode: string, value: string)
    requires !Contains(pair.1.text, Delay)
    ensures Resolve(pair, mode, value) == Strip(pair.1.text)
  {
    match pair.0
    case None =>
      ReplaceAllAbsent(pair.1.text, Delay, "0");
    case Some(prev) =>
      ReplaceAllAbsent(pair.1.text, Delay, DelayFor(mode, value, prev, pair.1));
  }

  /** The commands with every timestamp set to zero. */
  function Untimed(s: seq<Cmd>): (r: seq<Cmd>)
    ensures |r| == |s|
    ensures forall k :: 0 <= k < |s| ==> r[k] == s[k].(timestamp := 0)
  {
    seq(|s|, k requires 0 <= k < |s| => s[k].(timestamp := 0))
  }

  lemma {:induction false} InsertAfterUntimed(t: seq<Cmd>, x: Cmd)
    ensures InsertAfter(Untimed(t), x.(timestamp := 0)) == Untimed(InsertAfter(t, x))
    decreases |t|
  {
    if t == [] || t[|t| - 1].id <= x.id {
      assert Untimed(t + [x]) == Untimed(t) + [x.(timestamp := 0)];
    } else {
      var t' := t[..|t| - 1];
      InsertAfterUntimed(t', x);
      assert Untimed(t)[..|t| - 1] == Untimed(t');
      assert Untimed(InsertAfter(t', x) + [t[|t| - 1]]) == Untimed(InsertAfter(t', x)) + [t[|t| - 1].(timestamp := 0)];
    }
  }

  /** Sorting by id does not look at timestamps. */
  lemma {:induction false} SortByIdUntimed(s: seq<Cmd>)
    ensures SortById(Untimed(s)) == Untimed(SortById(s))
    decreases |s|
  {
    if s != [] {
      var s' := s[..|s| - 1];
      SortByIdUntimed(s');
      assert Untimed(s)[..|s| - 1] == Untimed(s');
      InsertAfterUntimed(SortById(s'), s[|s| - 1]);
    }
  }

  /**
   * Outside inherited mode the output does not depend on timestamps: two
   * merged lists that differ only in timestamps give the same lines.
   */
  lemma FixedIgnoresTimestamps(m1: seq<Cmd>, m2: seq<Cmd>, mode: string, value: string)
    requires !Inherited(mode)
    requires |m1| == |m2|
    requires forall k :: 0 <= k < |m1| ==> m1[k].id == m2[k].id && m1[k].text == m2[k].text
    ensures Commands(m1, mode, value) == Commands(m2, mode, value)
  {
    assert Untimed(m1) == Untimed(m2);
    SortByIdUntimed(m1);
    SortByIdUntimed(m2);
    var s1, s2 := SortById(m1), SortById(m2);
    forall k | 0 <= k < |m1|
      ensures Commands(m1, mode, value)[k] == Commands(m2, mode, value)[k]
    {
      assert Untimed(s1)[k] == Untimed(s2)[k];
      assert s1[k].text == s2[k].text;
      if k == 0 {
        CommandsFirst(m1, mode, value);
        CommandsFirst(m2, mode, value);
      } else {
        FixedDelay(m1, mode, value, k);
        FixedDelay(m2, mode, value, k);
      }
    }
  }

  /** `Resolve` by the cases of the loop body, with the mode test already evaluated. */
  lemma ResolveCases(pair: (Option<Cmd>, Cmd), inherited: bool, mode: string, value: string)
    requires inherited == Inherited(mode)
    ensures pair.0.Some? ==> (Resolve(pair, mode, value) ==
      Strip(ReplaceAll(pair.1.text, Delay, if inherited then IntToString(pair.1.timestamp - pair.0.value.timestamp) else value)))
    ensures pair.0.None? ==> Resolve(pair, mode, value) == Strip(ReplaceAll(pair.1.text, Delay, "0"))
  {
  }

  /** The loop result up to `i + 1` extends the one up to `i` with command `i` resolved. */
  lemma ResolveAllPrefix(sorted: seq<Cmd>, mode: string, value: string, i: nat)
    requires i < |sorted|
    ensures ResolveAll(sorted, mode, value)[..i + 1]
         == ResolveAll(sorted, mode, value)[..i] + [sorted[i].(text := Resolve(PreviousAndNext(sorted)[i], mode, value))]
  {
    ResolveAllAt(sorted, mode, value, i);
    var r := ResolveAll(sorted, mode, value);
    assert r[..i + 1] == r[..i] + [r[i]];
  }

  /**
   * The delay loop: walks `previous_and_next` over the sorted list with an
   * index counter and overwrites the text of command `i` in place.
   */
  method ResolveDelays(cmds: array<Cmd>, inherited: bool, ghost delayMode: string, delayValue: string)
    requires inherited == Inherited(delayMode)
    modifies cmds
    ensures cmds[..] == ResolveAll(old(cmds[..]), delayMode, delayValue)
  {
    ghost var sorted := cmds[..];
    ghost var want := ResolveAll(sorted, delayMode, delayValue);
    var pairs := PreviousAndNext(cmds[..]);
    var i := 0;
    while i < |pairs|
      invariant 0 <= i <= |pairs| == cmds.Length == |sorted| == |want|
      invariant cmds[..i] == want[..i]
      invariant cmds[i..] == sorted[i..]
    {
      var prev, curr := pairs[i].0, pairs[i].1;
      assert curr == sorted[i] == cmds[i] by {
        PreviousAndNextAt(sorted, i);
        assert cmds[i..][0] == sorted[i..][0];
      }
      var text;
      if prev.Some? {
        var delay := if inherited then IntToString(curr.timestamp - prev.value.timestamp) else delayValue;
        text := Strip(ReplaceAll(curr.text, Delay, delay));
      } else {
        text := Strip(ReplaceAll(curr.text, Delay, "0"));
      }
      assert want[..i + 1] == want[..i] + [curr.(text := text)] by {
        ResolveCases(pairs[i], inherited, delayMode, delayValue);
        ResolveAllPrefix(sorted, delayMode, delayValue, i);
      }
      cmds[i] := curr.(text := text);
      assert cmds[..i + 1] == cmds[..i] + [cmds[i]];
      assert cmds[i + 1..] == cmds[i..][1..];
      i := i + 1;
    }
    assert cmds[..] == cmds[..i];
  }

  /**
   * `get_commands` from the query results on: builds the list, sorts it in
   * place, resolves the delays in place, and keeps the texts.
   */
  method GetCommands(queries: seq<Query>, delayMode: string, delayValue: string, search: Search)
    returns (lines: seq<string>)
    ensures lines == Commands(Merge(queries, search), delayMode, delayValue)
  {
    var inherited := AsciiLower(delayMode) == "inherited";
    var merged := Merge(queries, search);
    var cmds := new Cmd[|merged|](k requires 0 <= k < |merged| => merged[k]);
    assert cmds[..] == merged;
    SortInPlace(cmds);
    ResolveDelays(cmds, inherited, delayMode, delayValue);
    lines := Texts(cmds[..]);
  }
}
