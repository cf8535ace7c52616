/** What the tags of a metadata log do to a directory, free of their encoding:
    the directory a log stands for, the backward lookup that never builds it,
    and the filter by which compaction rewrites the log. */
module EntryLog {
  import opened Wrappers

  /** One log entry: a splice of the list of entries, an attribute of the entry
      at an index, the removal of an attribute, or something else (a tail, a
      checksum, global state). */
  datatype Op<K, V> =
    | Create(id: nat)
    | Remove(id: nat)
    | Set(id: nat, key: K, val: V)
    | Drop(id: nat, key: K)
    | Other

  // ----- The meaning of a log: plain list replay -----

  /** What is known of one directory entry: its latest value under every key. */
  type Entry<K, V> = map<K, V>

  function Pad<K, V>(dir: seq<Entry<K, V>>, n: nat): (r: seq<Entry<K, V>>)
    ensures |r| == if |dir| >= n then |dir| else n
    ensures forall i :: 0 <= i < |r| ==> r[i] == if i < |dir| then dir[i] else map[]
  {
    if |dir| >= n then dir else dir + seq(n - |dir|, _ => map[])
  }

  function Apply<K, V>(op: Op<K, V>, dir: seq<Entry<K, V>>): seq<Entry<K, V>> {
    match op
    case Create(id) => Pad(dir, id)[..id] + [map[]] + Pad(dir, id)[id..]
    case Remove(id) => if id < |dir| then dir[..id] + dir[id + 1..] else dir
    case Set(id, key, val) => var p := Pad(dir, id + 1); p[id := p[id][key := val]]
    case Drop(id, key) => if id < |dir| then dir[id := dir[id] - {key}] else dir
    case Other => dir
  }

  function Replay<K, V>(log: seq<Op<K, V>>): seq<Entry<K, V>> {
    if log == [] then [] else Apply(log[|log| - 1], Replay(log[..|log| - 1]))
  }

  function At<K, V>(dir: seq<Entry<K, V>>, id: int): Entry<K, V> {
    if 0 <= id < |dir| then dir[id] else map[]
  }

  function Get<K, V>(dir: seq<Entry<K, V>>, id: int, key: K): Option<V> {
    if key in At(dir, id) then Some(At(dir, id)[key]) else None
  }

  // ----- The backward walk -----

  datatype Outcome<V> = Hit(val: V) | Gone | Open(id: int)

  /** One step back over op, looking for key of the entry that has index id after it. */
  function StepBack<K(==), V>(op: Op<K, V>, key: K, id: int): Outcome<V> {
    match op
    case Create(at) => if at == id then Gone else if at < id then Open(id - 1) else Open(id)
    case Remove(at) => if at <= id then Open(id + 1) else Open(id)
    case Set(at, k, val) => if at == id && k == key then Hit(val) else Open(id)
    case Drop(at, k) => if at == id && k == key then Gone else Open(id)
    case Other => Open(id)
  }

  function Walk<K(==), V>(log: seq<Op<K, V>>, key: K, id: int): Outcome<V> {
    if log == [] then Open(id)
    else
      match StepBack(log[|log| - 1], key, id)
      case Open(before) => Walk(log[..|log| - 1], key, before)
      case done => done
  }

  function Found<V>(o: Outcome<V>): Option<V> { if o.Hit? then Some(o.val) else None }

  function Lookup<K(==), V>(log: seq<Op<K, V>>, key: K, id: int): Option<V> { Found(Walk(log, key, id)) }

  lemma StepIsApply<K, V>(op: Op<K, V>, dir: seq<Entry<K, V>>, key: K, id: nat)
    ensures match StepBack(op, key, id)
            case Hit(val) => Get(Apply(op, dir), id, key) == Some(val)
            case Gone => Get(Apply(op, dir), id, key) == None
            case Open(before) => before >= 0 && Get(Apply(op, dir), id, key) == Get(dir, before, key)
  {
    var after := Apply(op, dir);
    match op
    case Create(at) =>
      assert At(after, id) == At(dir, if id < at then id else id - 1) || id == at;
    case Remove(at) =>
      assert At(after, id) == At(dir, if id < at then id else id + 1);
    case Set(at, k, val) =>
      assert At(after, id) == if id == at then At(dir, id)[k := val] else At(dir, id);
    case Drop(at, k) =>
      assert At(after, id) == if id == at then At(dir, id) - {k} else At(dir, id);
    case Other =>
  }

  /** Looking backward for the latest record of an entry, shifting the id around
      every splice on the way, finds what replaying the whole log would leave. */
  lemma {:induction false} LookupIsReplay<K, V>(log: seq<Op<K, V>>, key: K, id: nat)
    ensures Lookup(log, key, id) == Get(Replay(log), id, key)
  {
    if log != [] {
      var op, init := log[|log| - 1], log[..|log| - 1];
      StepIsApply(op, Replay(init), key, id);
      match StepBack(op, key, id) {
        case Open(before) => LookupIsReplay(init, key, before);
        case _ =>
      }
    }
  }

  /** The walk can also be read from the front: the first op matters only when
      everything after it left the question open. */
  lemma {:induction false} WalkFront<K, V>(op: Op<K, V>, rest: seq<Op<K, V>>, key: K, id: int)
    ensures Walk([op] + rest, key, id) ==
            match Walk(rest, key, id)
            case Open(before) => StepBack(op, key, before)
            case done => done
  {
    var log := [op] + rest;
    var n := |log| - 1;
    if rest == [] {
      match StepBack(op, key, id) { case Open(before) => assert log[..n] == []; case _ => }
    } else {
      assert log[..n] == [op] + rest[..n - 1] && log[n] == rest[n - 1];
      match StepBack(log[n], key, id) {
        case Open(before) => WalkFront(op, rest[..n - 1], key, before);
        case _ =>
      }
    }
  }

  // ----- Compaction: rewriting a log without its history -----

  /** What one later op does to an attribute kept so far under key at id:
      makes it redundant, or moves its entry. */
  function Filter<K(==), V>(key: K, id: int, later: Op<K, V>): Option<int> {
    match later
    case Create(at) => Some(if at <= id then id + 1 else id)
    case Remove(at) => if at == id then None else Some(if at < id then id - 1 else id)
    case Set(at, k, _) => if at == id && k == key then None else Some(id)
    case Drop(at, k) => if at == id && k == key then None else Some(id)
    case Other => Some(id)
  }

  function Survive<K(==), V>(key: K, id: int, rest: seq<Op<K, V>>): Option<int>
    decreases rest
  {
    if rest == [] then Some(id)
    else
      match Filter(key, id, rest[0])
      case Some(moved) => Survive(key, moved, rest[1..])
      case None => None
  }

  /** What compaction writes for one op, given everything that follows it. A
      removed attribute is dropped as soon as anything follows it. */
  function Emit<K(==), V>(op: Op<K, V>, rest: seq<Op<K, V>>, begin: nat, end: nat): seq<Op<K, V>> {
    match op
    case Set(id, key, val) =>
      (match Survive(key, id, rest)
       case Some(last) => if begin <= last < end then [Set(last - begin, key, val)] else []
       case None => [])
    case Drop(id, key) => if rest == [] && begin <= id < end then [Drop(id - begin, key)] else []
    case _ => []
  }

  function Compact<K(==), V>(log: seq<Op<K, V>>, begin: nat, end: nat): seq<Op<K, V>> {
    if log == [] then [] else Emit(log[0], log[1..], begin, end) + Compact(log[1..], begin, end)
  }

  /** The forward splice shifting of the filter and the backward shifting of the
      lookup are inverse to each other. */
  lemma {:induction false} SurviveIsWalk<K, V>(key: K, id: int, rest: seq<Op<K, V>>, last: int)
    ensures Survive(key, id, rest) == Some(last) <==> Walk(rest, key, last) == Open(id)
    decreases rest
  {
    if rest != [] {
      assert rest == [rest[0]] + rest[1..];
      WalkFront(rest[0], rest[1..], key, last);
      match Filter(key, id, rest[0]) {
        case Some(moved) => SurviveIsWalk(key, moved, rest[1..], last);
        case None =>
      }
      match Walk(rest[1..], key, last) {
        case Open(b) => SurviveIsWalk(key, b, rest[1..], last);
        case _ =>
      }
    }
  }

  /** After compaction a walk ends where it ended before, except that a removed
      attribute may leave no trace. */
  ghost predicate Agrees<V>(before: Outcome<V>, after: Outcome<V>, id: int) {
    match before
    case Hit(val) => after == Hit(val)
    case Gone => after == Gone || after == Open(id)
    case Open(_) => after == Open(id)
  }

  /** The walk over a compacted log answers as the walk over the original. */
  lemma {:induction false} CompactWalk<K, V>(log: seq<Op<K, V>>, begin: nat, end: nat, key: K, id: int)
    requires begin <= id < end
    ensures Agrees(Walk(log, key, id), Walk(Compact(log, begin, end), key, id - begin), id - begin)
  {
    if log != [] {
      var op, rest := log[0], log[1..];
      var e, c := Emit(op, rest, begin, end), Compact(rest, begin, end);
      assert log == [op] + rest;
      WalkFront(op, rest, key, id);
      CompactWalk(rest, begin, end, key, id);
      if e == [] {
        assert e + c == c;
      } else {
        assert e == [e[0]];
        WalkFront(e[0], c, key, id - begin);
      }
      EmitAgrees(op, rest, begin, end, key, id);
    }
  }

  /** The first op answers for (key, id) exactly when compaction writes it there. */
  lemma EmitAgrees<K, V>(op: Op<K, V>, rest: seq<Op<K, V>>, begin: nat, end: nat, key: K, id: int)
    requires begin <= id < end
    ensures var e := Emit(op, rest, begin, end);
            match Walk(rest, key, id)
            case Open(b) =>
              Agrees(StepBack(op, key, b), if e == [] then Open(id - begin)
                else StepBack(e[0], key, id - begin), id - begin)
            case _ => e == [] || StepBack(e[0], key, id - begin) == Open(id - begin)
  {
    if op.Set? {
      SurviveIsWalk(op.key, op.id, rest, id);
    }
  }

  /** Compaction preserves meaning: every question about an entry in the kept
      range has the same answer, at its new index, and nothing else is kept. */
  lemma CompactPreservesLookup<K, V>(log: seq<Op<K, V>>, begin: nat, end: nat, key: K, id: int)
    requires begin <= end
    ensures Lookup(Compact(log, begin, end), key, id) ==
            if 0 <= id < end - begin then Lookup(log, key, id + begin) else None
  {
    if 0 <= id < end - begin {
      CompactWalk(log, begin, end, key, id + begin);
    } else {
      OutOfRange(log, begin, end, key, id);
    }
  }

  lemma {:induction false} OutOfRange<K, V>(log: seq<Op<K, V>>, begin: nat, end: nat, key: K, id: int)
    requires begin <= end && !(0 <= id < end - begin)
    ensures Walk(Compact(log, begin, end), key, id) == Open(id)
  {
    if log != [] {
      var e, c := Emit(log[0], log[1..], begin, end), Compact(log[1..], begin, end);
      OutOfRange(log[1..], begin, end, key, id);
      if e == [] {
        assert e + c == c;
      } else {
        assert e == [e[0]];
        WalkFront(e[0], c, key, id);
      }
    }
  }

  /** The directory a compacted log stands for is the kept slice of the old one. */
  lemma CompactIsSlice<K, V>(log: seq<Op<K, V>>, begin: nat, end: nat, key: K, id: nat)
    requires begin <= end
    ensures Get(Replay(Compact(log, begin, end)), id, key) ==
            if id < end - begin then Get(Replay(log), id + begin, key) else None
  {
    hide Compact, Lookup, Replay, Get;
    CompactPreservesLookup(log, begin, end, key, id);
    LookupIsReplay(Compact(log, begin, end), key, id);
    LookupIsReplay(log, key, id + begin);
  }

  /** A compacted log holds nothing redundant: compacting it again changes nothing. */
  lemma {:induction false} CompactIdempotent<K, V>(log: seq<Op<K, V>>, begin: nat, end: nat)
    requires begin <= end
    ensures Compact(Compact(log, begin, end), 0, end - begin) == Compact(log, begin, end)
  {
    if log != [] {
      var e, c := Emit(log[0], log[1..], begin, end), Compact(log[1..], begin, end);
      CompactIdempotent(log[1..], begin, end);
      if e == [] {
        assert e + c == c;
      } else {
        assert e == [e[0]] && (e + c)[1..] == c;
        StaysPut(log[0], log[1..], begin, end);
      }
    }
  }

  /** What compaction wrote for an op, it would write again. */
  lemma StaysPut<K, V>(op: Op<K, V>, rest: seq<Op<K, V>>, begin: nat, end: nat)
    requires begin <= end
    ensures var e := Emit(op, rest, begin, end);
            e != [] ==> Emit(e[0], Compact(rest, begin, end), 0, end - begin) == e
  {
    if op.Set? && Survive(op.key, op.id, rest).Some? {
      var last := Survive(op.key, op.id, rest).value;
      SurviveIsWalk(op.key, op.id, rest, last);
      if begin <= last < end {
        CompactWalk(rest, begin, end, op.key, last);
        SurviveIsWalk(op.key, last - begin, Compact(rest, begin, end), last - begin);
      }
    }
  }
}
