/** The `worker` loop of `start_conversion`: every discovered item is
    converted in order, failures are counted and progress is reported after
    each item; the success and failure counts of the final status line are
    returned as numbers. A written output becomes part of the destination, so
    later items see it when choosing their names. */
module Batch {
  import opened Wrappers
  import Naming
  import Convert

  /** The destination's names after an outcome: a written file adds its name
      (a failed save leaves nothing behind). Names are compared exactly, as on
      a case-sensitive filesystem. */
  function After(existing: set<string>, o: Convert.Outcome): set<string>
  {
    if o.Written? then existing + {o.request.outName} else existing
  }

  /** The outcomes of a whole batch, item by item, threading the destination
      through the conversions: exactly one outcome per item. */
  function Run(items: seq<Convert.Item>, existing: set<string>, opts: Convert.Options): (r: seq<Convert.Outcome>)
    ensures |r| == |items|
    decreases |items|
  {
    if items == [] then []
    else
      var o := Convert.ConvertOne(items[0], existing, opts);
      [o] + Run(items[1..], After(existing, o), opts)
  }

  /** The fate an item's own data decides: a decode failure is skipped, a
      save failure is reported, every other item is written. */
  predicate Fate(item: Convert.Item, o: Convert.Outcome)
  {
    && (o.Skipped? <==> item.decoded.Failure?)
    && (o.Written? <==> item.decoded.Success? && item.saveError.None?)
  }

  /** The run of a non-empty batch is the first item's outcome followed by the
      run of the rest against the destination that outcome leaves. */
  lemma RunCons(items: seq<Convert.Item>, existing: set<string>, opts: Convert.Options)
    requires items != []
    ensures var o := Convert.ConvertOne(items[0], existing, opts);
      Run(items, existing, opts) == [o] + Run(items[1..], After(existing, o), opts)
  {
  }

  /** Each item's fate is decided by that item alone, and no failure stops
      the items after it. */
  lemma {:induction false} RunOutcomes(items: seq<Convert.Item>, existing: set<string>, opts: Convert.Options)
    ensures var r := Run(items, existing, opts);
      forall i :: 0 <= i < |items| ==> Fate(items[i], r[i])
    decreases |items|
  {
    if items != [] {
      var o := Convert.ConvertOne(items[0], existing, opts);
      RunCons(items, existing, opts);
      RunOutcomes(items[1..], After(existing, o), opts);
      FateStep(items, [o] + Run(items[1..], After(existing, o), opts));
    }
  }

  lemma FateStep(items: seq<Convert.Item>, r: seq<Convert.Outcome>)
    requires |r| == |items| > 0 && Fate(items[0], r[0])
    requires forall i :: 0 <= i < |items[1..]| ==> Fate(items[1..][i], r[1..][i])
    ensures forall i :: 0 <= i < |items| ==> Fate(items[i], r[i])
  {
    forall i | 0 < i < |items| ensures Fate(items[i], r[i]) {
      assert items[i] == items[1..][i - 1] && r[i] == r[1..][i - 1];
    }
  }

  /** `errors`: how many outcomes carry a message. */
  function Failures(outcomes: seq<Convert.Outcome>): (r: nat)
    ensures r <= |outcomes|
    ensures r == 0 <==> forall i :: 0 <= i < |outcomes| ==> outcomes[i].Written?
  {
    if outcomes == [] then 0
    else Failures(outcomes[..|outcomes| - 1]) + (if outcomes[|outcomes| - 1].Written? then 0 else 1)
  }

  /** How many outcomes wrote their output. */
  function Successes(outcomes: seq<Convert.Outcome>): nat
  {
    if outcomes == [] then 0
    else Successes(outcomes[..|outcomes| - 1]) + (if outcomes[|outcomes| - 1].Written? then 1 else 0)
  }

  /** Successes and failures partition the batch. */
  lemma {:induction false} TallyPartition(outcomes: seq<Convert.Outcome>)
    ensures Successes(outcomes) + Failures(outcomes) == |outcomes|
  {
    if outcomes != [] { TallyPartition(outcomes[..|outcomes| - 1]); }
  }

  /** What the worker has established after `i` items: the outcomes so far
      followed by the run of the remaining items from the current
      destination make up the whole run, `errors` counts the failures so far,
      and one progress value has been reported per item. */
  predicate Progressed(items: seq<Convert.Item>, existing: set<string>, opts: Convert.Options,
                       i: nat, outcomes: seq<Convert.Outcome>, errors: nat, progress: seq<nat>, dest: set<string>)
  {
    && i <= |items|
    && outcomes + Run(items[i..], dest, opts) == Run(items, existing, opts)
    && |outcomes| == i && errors == Failures(outcomes) && errors <= i
    && |progress| == i && (forall k :: 0 <= k < i ==> progress[k] == k + 1)
  }

  /** The worker loop. It returns the outcomes, the failure count and the
      progress values reported after each item; the final status reports
      `|items| - errors` successes and `errors` failures. */
  method Worker(items: seq<Convert.Item>, existing: set<string>, opts: Convert.Options)
    returns (outcomes: seq<Convert.Outcome>, errors: nat, progress: seq<nat>)
    ensures outcomes == Run(items, existing, opts)
    ensures errors == Failures(outcomes) && errors <= |items|
    ensures |items| - errors == Successes(outcomes)
    ensures |progress| == |items| && forall i :: 0 <= i < |items| ==> progress[i] == i + 1
  {
    outcomes, errors, progress := [], 0, [];
    var dest := existing;
    var i := 0;
    assert items[0..] == items;
    while i < |items|
      invariant Progressed(items, existing, opts, i, outcomes, errors, progress, dest)
    {
      outcomes, errors, progress, dest := Step(items, existing, opts, i, outcomes, errors, progress, dest);
      i := i + 1;
    }
    assert items[i..] == [];
    TallyPartition(outcomes);
  }

  /** One turn of the worker loop: convert item `i` against the current
      destination, report progress `i + 1`, and count a failure when the
      returned message is truthy. */
  method Step(items: seq<Convert.Item>, existing: set<string>, opts: Convert.Options,
              i: nat, outcomes: seq<Convert.Outcome>, errors: nat, progress: seq<nat>, dest: set<string>)
    returns (outcomes': seq<Convert.Outcome>, errors': nat, progress': seq<nat>, dest': set<string>)
    requires i < |items|
    requires Progressed(items, existing, opts, i, outcomes, errors, progress, dest)
    ensures Progressed(items, existing, opts, i + 1, outcomes', errors', progress', dest')
  {
    var o, next := ConvertNext(items, i, dest, opts);
    progress' := progress + [i + 1];
    ProgressNext(progress, progress', i);
    errors' := errors;
    if Truthy(o.Message()) {
      errors' := errors + 1;
    }
    FailuresAppend(outcomes, o);
    AppendAssoc(outcomes, o, Run(items[i + 1..], next, opts));
    outcomes' := outcomes + [o];
    dest' := next;
  }

  /** Converts item `i` against the current destination and returns its
      outcome and the destination after it. The `if msg:` test is true
      exactly for the items not written, because every message is
      non-empty. */
  method ConvertNext(items: seq<Convert.Item>, i: nat, dest: set<string>, opts: Convert.Options)
    returns (o: Convert.Outcome, next: set<string>)
    requires i < |items|
    ensures Run(items[i..], dest, opts) == [o] + Run(items[i + 1..], next, opts)
    ensures Truthy(o.Message()) <==> !o.Written?
  {
    o := Convert.ConvertOne(items[i], dest, opts);
    next := After(dest, o);
    assert items[i..][0] == items[i] && items[i..][1..] == items[i + 1..];
    if !o.Written? { assert |o.reason| >= 5; }
  }

  lemma ProgressNext(progress: seq<nat>, progress': seq<nat>, i: nat)
    requires |progress| == i && forall k :: 0 <= k < i ==> progress[k] == k + 1
    requires progress' == progress + [i + 1]
    ensures forall k :: 0 <= k < i + 1 ==> progress'[k] == k + 1
  {
  }

  lemma AppendAssoc(a: seq<Convert.Outcome>, o: Convert.Outcome, r: seq<Convert.Outcome>)
    ensures (a + [o]) + r == a + ([o] + r)
  {
  }

  lemma FailuresAppend(outcomes: seq<Convert.Outcome>, o: Convert.Outcome)
    ensures Failures(outcomes + [o]) == Failures(outcomes) + (if o.Written? then 0 else 1)
  {
    assert (outcomes + [o])[..|outcomes|] == outcomes;
  }

  /** No attempted outcome targets a name in `existing`, and no outcome
      targets the name of an output written before it. */
  predicate NoClobbering(r: seq<Convert.Outcome>, existing: set<string>)
  {
    && (forall i :: 0 <= i < |r| && r[i].Attempted() ==> r[i].request.outName !in existing)
    && (forall i, j :: 0 <= i < j < |r| && r[i].Written? && r[j].Attempted() ==>
          r[i].request.outName != r[j].request.outName)
  }

  /** With overwrite off, no encoder call targets a name that was in the
      destination before it, nor the name of an output written earlier in the
      same batch. */
  lemma {:induction false} NoClobber(items: seq<Convert.Item>, existing: set<string>, opts: Convert.Options)
    requires !opts.overwrite
    ensures NoClobbering(Run(items, existing, opts), existing)
    decreases |items|
  {
    if items != [] {
      var o := Convert.ConvertOne(items[0], existing, opts);
      RunCons(items, existing, opts);
      NoClobber(items[1..], After(existing, o), opts);
      ClobberStep([o] + Run(items[1..], After(existing, o), opts), existing);
    }
  }

  lemma ClobberStep(r: seq<Convert.Outcome>, existing: set<string>)
    requires r != []
    requires r[0].Attempted() ==> r[0].request.outName !in existing
    requires NoClobbering(r[1..], After(existing, r[0]))
    ensures NoClobbering(r, existing)
  {
    var next := After(existing, r[0]);
    forall i | 0 < i < |r| && r[i].Attempted() ensures r[i].request.outName !in existing {
      assert r[i] == r[1..][i - 1];
    }
    forall i, j | 0 <= i < j < |r| && r[i].Written? && r[j].Attempted()
      ensures r[i].request.outName != r[j].request.outName
    {
      assert r[j] == r[1..][j - 1];
      if i > 0 { assert r[i] == r[1..][i - 1]; }
    }
  }

  /** Converting the same image twice into a destination where neither
      `{stem}.avif` nor `{stem}_2.avif` exists writes both of them with
      overwrite off, and the plain name twice with overwrite on. */
  lemma SameSourceTwice(item: Convert.Item, existing: set<string>, opts: Convert.Options)
    requires item.decoded.Success? && item.saveError.None?
    requires var stem := Convert.ItemStem(item, opts);
      Naming.PlainName(stem) !in existing && Naming.NumberedName(stem, 2) !in existing
    ensures var r, stem := Run([item, item], existing, opts), Convert.ItemStem(item, opts);
      && r[0].Written? && r[1].Written?
      && r[0].request.outName == Naming.PlainName(stem)
      && r[1].request.outName == (if opts.overwrite then Naming.PlainName(stem) else Naming.NumberedName(stem, 2))
  {
    var stem := Convert.ItemStem(item, opts);
    var o := Convert.ConvertOne(item, existing, opts);
    RunCons([item, item], existing, opts);
    assert [item, item][1..] == [item];
    RunCons([item], After(existing, o), opts);
    if !opts.overwrite {
      Naming.NumberedNamesDistinct(stem, 2, 2);
      Naming.CollisionIndexUnique(existing + {Naming.PlainName(stem)}, stem, 2);
    }
  }
}
