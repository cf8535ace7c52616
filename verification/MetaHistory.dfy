/** What a metadata pair says after any run of commits, compactions and power cuts:
    every lookup answers as the log of the commits that took effect. */
module MetaHistory {
  import opened Bytes
  import opened Crc
  import opened Tags
  import opened EntryLog
  import opened TagLog
  import opened Words
  import opened MetaBlock
  import opened MetaCommit
  import opened MetaAttrs
  import opened MetaPair
  import opened MetaRun

  // ----- Logs that say the same -----

  /** Every question about an entry has the same answer. */
  ghost predicate SameAnswers<K(!new), V>(a: seq<Op<K, V>>, b: seq<Op<K, V>>) {
    forall key: K, id: nat :: Lookup(a, key, id) == Lookup(b, key, id)
  }

  lemma LookupLast<K, V>(init: seq<Op<K, V>>, op: Op<K, V>, key: K, id: nat)
    ensures Lookup(init + [op], key, id) ==
      match StepBack(op, key, id) case Open(before) => Lookup(init, key, before) case done => Found(done)
    ensures StepBack(op, key, id).Open? ==> StepBack(op, key, id).id >= 0
  {
    assert (init + [op])[..|init|] == init;
  }

  /** What is appended to both leaves them so. */
  lemma {:induction false} SameAfter<K(!new), V>(a: seq<Op<K, V>>, b: seq<Op<K, V>>, more: seq<Op<K, V>>, key: K,
                                       id: nat)
    requires SameAnswers(a, b)
    ensures Lookup(a + more, key, id) == Lookup(b + more, key, id)
  {
    if more == [] {
      assert a + more == a && b + more == b;
    } else {
      var init, op := more[..|more| - 1], more[|more| - 1];
      assert a + more == (a + init) + [op] && b + more == (b + init) + [op];
      LookupLast(a + init, op, key, id);
      LookupLast(b + init, op, key, id);
      match StepBack(op, key, id)
      case Open(before) => SameAfter(a, b, init, key, before);
      case _ =>
    }
  }

  /** A compaction of all entries says what the log said. */
  lemma WholeCompaction<K, V>(log: seq<Op<K, V>>, key: K, id: nat)
    ensures Lookup(EntryLog.Compact(log, 0, |Replay(log)|), key, id) == Lookup(log, key, id)
  {
    CompactPreservesLookup(log, 0, |Replay(log)|, key, id);
    LookupIsReplay(log, key, id);
  }

  lemma OpsConcat(a: seq<Rec>, b: seq<Rec>)
    ensures Ops(a + b) == Ops(a) + Ops(b)
  {}

  // ----- One event -----

  /** What an event is to commit. An append commits its attributes. A compaction
      commits attributes by writing them with all that is in the log, as the
      traversal hands it on, followed by what is no entry's. */
  datatype Intent = Intent(commit: seq<Attr>, kept: nat)

  ghost predicate Carries(p: BlockPair, e: Event, i: Intent)
    requires |p.cur| >= 4
  {
    match e
    case Append(attrs, _) => attrs == i.commit
    case Compact(attrs, _) =>
      var log := Ops(ScanBlock(p.cur).log + Recs(i.commit));
      && i.kept <= |attrs| && Ops(Recs(attrs[..i.kept])) == EntryLog.Compact(log, 0, |Replay(log)|)
      && forall a :: a in attrs[i.kept..] ==> Silent(RecOf(a))
  }

  lemma {:induction false} RecsSized(attrs: seq<Attr>)
    requires forall i :: 0 <= i < |attrs| ==> Writable(attrs[i])
    ensures Sized(Recs(attrs))
  {
    hide TagOf, IsValid;
    if attrs != [] { RecsSized(attrs[1..]); }
  }

  /** What the driver writes when it compacts is such a compaction: the traversal of
      the log with what is to be committed, as words, and then its own attributes. */
  method BuildCompaction(p: BlockPair, log: seq<Rec>, count: nat, commit: seq<Attr>, own: seq<Attr>, cut: nat)
    returns (attrs: seq<Attr>, ghost i: Intent)
    requires |p.cur| >= 4 && log == ScanBlock(p.cur).log + Recs(commit) && count == |Replay(Ops(log))|
    requires WellFormed(log) && IdsFit(log)
    requires forall k :: 0 <= k < |commit| ==> Writable(commit[k])
    requires forall k :: 0 <= k < |own| ==> Writable(own[k]) && Silent(RecOf(own[k]))
    ensures Carries(p, Compact(attrs, cut), i) && i.commit == commit
    ensures forall k :: 0 <= k < |attrs| ==> Writable(attrs[k])
  {
    hide ScanBlock, Recs, Ops, EntryLog.Compact, Replay, TagOf, Writable;
    ScanSized(p.cur);
    RecsSized(commit);
    var kept := CompactAttrs(log, 0, count);
    attrs, i := kept + own, Intent(commit, |kept|);
    assert attrs[..|kept|] == kept && attrs[|kept|..] == own;
  }

  ghost predicate TookEffect(p: BlockPair, e: Event, q: BlockPair)
    requires |p.cur| >= 4 && |q.cur| >= 4
  {
    ScanBlock(q.cur) == Committed(p, e)
  }

  /** An event that takes effect adds what it was to commit. */
  lemma CommittedMeans(p: BlockPair, e: Event, i: Intent, key: Key, id: nat)
    requires |p.cur| >= 4 && Enabled(p, e) && Carries(p, e, i)
    ensures Lookup(Ops(Committed(p, e).log), key, id) == Lookup(Ops(ScanBlock(p.cur).log + Recs(i.commit)), key, id)
  {
    hide Appended, Compacted, ScanBlock, Recs, Ops, Lookup, Torn, AppendBytes, CompactBytes, Certified, CertifiedEither,
      Appendable, Compactable, EntryLog.Compact, Replay, TagOf;
    match e
    case Append(attrs, _) => AppendMeans(p.cur, attrs, key, id);
    case Compact(attrs, _) =>
      var log := ScanBlock(p.cur).log + Recs(i.commit);
      CompactMeans(p.other, attrs, log, i.kept, 0, |Replay(Ops(log))|, key, id);
      CompactPreservesLookup(Ops(log), 0, |Replay(Ops(log))|, key, id);
      WholeCompaction(Ops(log), key, id);
  }

  // ----- Runs -----

  ghost predicate IsRun(pairs: seq<BlockPair>, events: seq<Event>, intents: seq<Intent>) {
    && |pairs| == |events| + 1 && |intents| == |events|
    && (forall i :: 0 <= i < |pairs| ==> |pairs[i].cur| >= 4)
    && (forall i {:trigger events[i]} :: 0 <= i < |events| ==>
      Step(pairs[i], events[i], pairs[i + 1]) && Carries(pairs[i], events[i], intents[i]))
  }

  /** The log at first, and all that was committed by events that took effect. */
  ghost function History(pairs: seq<BlockPair>, events: seq<Event>, intents: seq<Intent>): seq<Op<Key, Payload>>
    requires IsRun(pairs, events, intents)
  {
    if events == [] then Ops(ScanBlock(pairs[0].cur).log)
    else
      var n := |events| - 1;
      RunInit(pairs, events, intents);
      History(pairs[..n + 1], events[..n], intents[..n])
      + if TookEffect(pairs[n], events[n], pairs[n + 1]) then Ops(Recs(intents[n].commit)) else []
  }

  lemma RunInit(pairs: seq<BlockPair>, events: seq<Event>, intents: seq<Intent>)
    requires IsRun(pairs, events, intents) && events != []
    ensures IsRun(pairs[..|events|], events[..|events| - 1], intents[..|events| - 1])
  {
    hide Step, Carries;
    var n := |events| - 1;
    forall i {:trigger events[..n][i]} | 0 <= i < n
      ensures Step(pairs[..n + 1][i], events[..n][i], pairs[..n + 1][i + 1])
      ensures Carries(pairs[..n + 1][i], events[..n][i], intents[..n][i])
    {
      assert events[..n][i] == events[i];
    }
  }

  /** Over any run of commits, compactions and power cuts, in any order, the pair
      fetches, and every lookup answers as the log of all commits that took effect. */
  lemma {:induction false} RunMeans(pairs: seq<BlockPair>, events: seq<Event>, intents: seq<Intent>)
    requires IsRun(pairs, events, intents) && PairOk(pairs[0])
    ensures PairOk(pairs[|events|])
    ensures SameAnswers(Ops(ScanBlock(pairs[|events|].cur).log), History(pairs, events, intents))
    decreases |events|
  {
    hide Step, Carries, ScanBlock, Committed, PairInv, Enabled, Ops, Recs, Lookup;
    if events != [] {
      var n := |events| - 1;
      RunInit(pairs, events, intents);
      RunMeans(pairs[..n + 1], events[..n], intents[..n]);
      assert events[n] in events;
      StepMeans(pairs[n], events[n], pairs[n + 1], intents[n], History(pairs[..n + 1], events[..n], intents[..n]));
    }
  }

  lemma StepMeans(p: BlockPair, e: Event, q: BlockPair, i: Intent, history: seq<Op<Key, Payload>>)
    requires |p.cur| >= 4 && |q.cur| >= 4 && PairOk(p) && Step(p, e, q) && Carries(p, e, i)
    requires SameAnswers(Ops(ScanBlock(p.cur).log), history)
    ensures PairOk(q)
    ensures SameAnswers(Ops(ScanBlock(q.cur).log),
                        history + if TookEffect(p, e, q) then Ops(Recs(i.commit)) else [])
  {
    hide Carries, ScanBlock, Committed, PairInv, Enabled, Ops, Recs, Lookup, EventBytes;
    StepAtomic(p, e, q);
    assert history + [] == history;
    if TookEffect(p, e, q) {
      forall key: Key, id: nat
        ensures Lookup(Ops(ScanBlock(q.cur).log), key, id) == Lookup(history + Ops(Recs(i.commit)), key, id)
      {
        CommittedMeans(p, e, i, key, id);
        OpsConcat(ScanBlock(p.cur).log, Recs(i.commit));
        SameAfter(Ops(ScanBlock(p.cur).log), history, Ops(Recs(i.commit)), key, id);
      }
    }
  }
}
