/**
 * The bookkeeping of the browser mock (addons/web/static/lib/hoot/mock/window.js):
 * the prototype-chain owner lookup, the log of original property descriptors
 * that patching writes and unpatching replays, and the per-target registry of
 * event listeners.
 *
 * Objects are identities; the own properties of every object form a heap
 * mapping (object, property) to a descriptor, and an object's prototype chain
 * is a sequence starting with the object itself and ending with the object
 * whose prototype is null.
 */
module WindowMock {
  import opened Wrappers

  /** An object, by identity. */
  type Obj = nat

  type Prop = string

  type EventType = string

  /** A value a data property holds; host objects and the mocks of other modules are named. */
  datatype Val = Undefined | Text(s: string) | Host(name: string)

  /** The function stored as the getter of an accessor property. */
  datatype Getter =
    | MockTitleGetter            // `() => mockTitle`
    | NativeTitleGetter          // the browser's own `document.title` getter
    | ForeignGetter(name: string)

  /** The function stored as the setter of an accessor property. */
  datatype Setter =
    | MockTitleSetter            // `(value) => (mockTitle = value)`
    | NativeTitleSetter          // the browser's own `document.title` setter
    | ForeignSetter(name: string)

  /** A property descriptor; an absent field is `None`. */
  datatype Descriptor = Descriptor(value: Option<Val>, writable: Option<bool>, getter: Option<Getter>, setter: Option<Setter>)

  /** The own properties of all objects. */
  type Heap = map<(Obj, Prop), Descriptor>

  /** `Object.getOwnPropertyDescriptor(o, p)`: `None` stands for `undefined`. */
  function Own(heap: Heap, o: Obj, p: Prop): (r: Option<Descriptor>)
    ensures r.Some? <==> (o, p) in heap
  {
    if (o, p) in heap then Some(heap[(o, p)]) else None
  }

  // ---------------------------------------------------------------------------
  // findPropertyOwner
  // ---------------------------------------------------------------------------

  /**
   * The position in `chain` of the nearest object owning `p`, or of the last
   * object (the one with a null prototype) when no object in the chain owns it.
   */
  function FindPropertyOwner(chain: seq<Obj>, p: Prop, heap: Heap): (k: nat)
    requires |chain| > 0
    ensures k < |chain|
    ensures forall j :: 0 <= j < k ==> (chain[j], p) !in heap
    ensures (chain[k], p) in heap || k == |chain| - 1
    ensures (chain[k], p) in heap <==> exists j :: 0 <= j < |chain| && (chain[j], p) in heap
    decreases |chain|
  {
    if (chain[0], p) in heap || |chain| == 1 then 0
    else
      var k := FindPropertyOwner(chain[1..], p, heap);
      assert forall j :: 1 <= j < |chain| ==> chain[j] == chain[1..][j - 1];
      1 + k
  }

  /** The object `findPropertyOwner(chain[0], p)` returns. */
  function Owner(chain: seq<Obj>, p: Prop, heap: Heap): Obj
    requires |chain| > 0
  {
    chain[FindPropertyOwner(chain, p, heap)]
  }

  /** Some object of the chain owns `p`. */
  predicate Found(chain: seq<Obj>, p: Prop, heap: Heap)
    requires |chain| > 0
  {
    (Owner(chain, p, heap), p) in heap
  }

  /** The owner of `p` depends only on which objects of the chain own `p`. */
  lemma OwnerFrame(chain: seq<Obj>, p: Prop, h1: Heap, h2: Heap)
    requires |chain| > 0
    requires forall j :: 0 <= j < |chain| ==> ((chain[j], p) in h1 <==> (chain[j], p) in h2)
    ensures FindPropertyOwner(chain, p, h1) == FindPropertyOwner(chain, p, h2)
  {
  }

  // ---------------------------------------------------------------------------
  // applyPropertyDescriptors
  // ---------------------------------------------------------------------------

  /** One entry of `originalDescriptors`. */
  datatype PatchRecord = PatchRecord(descriptor: Option<Descriptor>, owner: Obj, property: Prop, target: Obj)

  /** The descriptor actually defined: a copy of the given one, made read-only when it carries a value. */
  function Installed(raw: Descriptor): (d: Descriptor)
    ensures d.value == raw.value && d.getter == raw.getter && d.setter == raw.setter
    ensures d.writable == if raw.value.Some? then Some(false) else raw.writable
  {
    if raw.value.Some? then raw.(writable := Some(false)) else raw
  }

  /** The record `applyPropertyDescriptors` pushes for `p` before redefining it. */
  function RecordFor(heap: Heap, chain: seq<Obj>, p: Prop): PatchRecord
    requires |chain| > 0
  {
    var owner := Owner(chain, p, heap);
    PatchRecord(Own(heap, owner, p), owner, p, chain[0])
  }

  /** One iteration of `applyPropertyDescriptors`: record the original, then define the copy on the owner. */
  function ApplyOne(heap: Heap, records: seq<PatchRecord>, chain: seq<Obj>, entry: (Prop, Descriptor)): (Heap, seq<PatchRecord>)
    requires |chain| > 0
  {
    (heap[(Owner(chain, entry.0, heap), entry.0) := Installed(entry.1)], records + [RecordFor(heap, chain, entry.0)])
  }

  /** `applyPropertyDescriptors(chain[0], descriptors)`, entries in `Object.entries` order. */
  function ApplyAll(heap: Heap, records: seq<PatchRecord>, chain: seq<Obj>, descriptors: seq<(Prop, Descriptor)>): (Heap, seq<PatchRecord>)
    requires |chain| > 0
    decreases |descriptors|
  {
    if descriptors == [] then (heap, records)
    else
      var (h, r) := ApplyAll(heap, records, chain, descriptors[..|descriptors| - 1]);
      ApplyOne(h, r, chain, descriptors[|descriptors| - 1])
  }

  predicate DistinctProps(descriptors: seq<(Prop, Descriptor)>)
  {
    forall i, j :: 0 <= i < j < |descriptors| ==> descriptors[i].0 != descriptors[j].0
  }

  /** The (owner, property) pairs a patch with `descriptors` redefines. */
  function PatchedKeys(heap: Heap, chain: seq<Obj>, descriptors: seq<(Prop, Descriptor)>): set<(Obj, Prop)>
    requires |chain| > 0
  {
    set k | 0 <= k < |descriptors| :: (Owner(chain, descriptors[k].0, heap), descriptors[k].0)
  }

  lemma PatchedKeysSnoc(heap: Heap, chain: seq<Obj>, descriptors: seq<(Prop, Descriptor)>)
    requires |chain| > 0 && descriptors != []
    ensures var n := |descriptors| - 1;
      PatchedKeys(heap, chain, descriptors) ==
        PatchedKeys(heap, chain, descriptors[..n]) + {(Owner(chain, descriptors[n].0, heap), descriptors[n].0)}
  {
    var n := |descriptors| - 1;
    var pre := descriptors[..n];
    forall key | key in PatchedKeys(heap, chain, descriptors)
      ensures key in PatchedKeys(heap, chain, pre) + {(Owner(chain, descriptors[n].0, heap), descriptors[n].0)}
    {
      var k :| 0 <= k < |descriptors| && key == (Owner(chain, descriptors[k].0, heap), descriptors[k].0);
      if k < n {
        assert pre[k] == descriptors[k];
      }
    }
    forall key | key in PatchedKeys(heap, chain, pre)
      ensures key in PatchedKeys(heap, chain, descriptors)
    {
      var k :| 0 <= k < |pre| && key == (Owner(chain, pre[k].0, heap), pre[k].0);
      assert pre[k] == descriptors[k];
    }
  }

  /** The properties of `descriptors` other than `p`. */
  predicate Avoids(descriptors: seq<(Prop, Descriptor)>, p: Prop)
  {
    forall k :: 0 <= k < |descriptors| ==> descriptors[k].0 != p
  }

  /** A patch leaves every own property it does not redefine alone. */
  lemma {:induction false} ApplyAllFrame(heap: Heap, records: seq<PatchRecord>, chain: seq<Obj>, descriptors: seq<(Prop, Descriptor)>)
    requires |chain| > 0 && DistinctProps(descriptors)
    ensures var h := ApplyAll(heap, records, chain, descriptors).0;
      forall key :: key !in PatchedKeys(heap, chain, descriptors) ==>
        (key in h <==> key in heap) && (key in heap ==> h[key] == heap[key])
    decreases |descriptors|
  {
    if descriptors != [] {
      var n := |descriptors| - 1;
      var pre := descriptors[..n];
      var p := descriptors[n].0;
      assert DistinctProps(pre);
      assert Avoids(pre, p);
      ApplyAllFrame(heap, records, chain, pre);
      OwnerStable(heap, records, chain, pre, p);
      PatchedKeysSnoc(heap, chain, descriptors);
      var h' := ApplyAll(heap, records, chain, pre).0;
      var h := ApplyAll(heap, records, chain, descriptors).0;
      var last := (Owner(chain, p, heap), p);
      assert h == h'[last := Installed(descriptors[n].1)];
      forall key | key !in PatchedKeys(heap, chain, descriptors)
        ensures (key in h <==> key in heap) && (key in heap ==> h[key] == heap[key])
      {
        assert key != last && key !in PatchedKeys(heap, chain, pre);
      }
    }
  }

  /** `h` holds the read-only copy of `entry`'s descriptor on the owner its property has in `heap`. */
  predicate InstalledIn(h: Heap, heap: Heap, chain: seq<Obj>, entry: (Prop, Descriptor))
    requires |chain| > 0
  {
    var key := (Owner(chain, entry.0, heap), entry.0);
    key in h && h[key] == Installed(entry.1)
  }

  /**
   * A patch with distinct properties installs the read-only copy of each
   * descriptor on the owner the property had before the patch.
   */
  lemma {:induction false} ApplyAllHeap(heap: Heap, records: seq<PatchRecord>, chain: seq<Obj>, descriptors: seq<(Prop, Descriptor)>)
    requires |chain| > 0 && DistinctProps(descriptors)
    ensures forall k :: 0 <= k < |descriptors| ==> InstalledIn(ApplyAll(heap, records, chain, descriptors).0, heap, chain, descriptors[k])
    decreases |descriptors|
  {
    if descriptors != [] {
      var n := |descriptors| - 1;
      var pre := descriptors[..n];
      var p := descriptors[n].0;
      assert DistinctProps(pre);
      assert Avoids(pre, p);
      ApplyAllHeap(heap, records, chain, pre);
      ApplyAllFrame(heap, records, chain, pre);
      OwnerStable(heap, records, chain, pre, p);
      var h' := ApplyAll(heap, records, chain, pre).0;
      var h := ApplyAll(heap, records, chain, descriptors).0;
      assert h == h'[(Owner(chain, p, heap), p) := Installed(descriptors[n].1)];
      forall k | 0 <= k < |descriptors|
        ensures InstalledIn(h, heap, chain, descriptors[k])
      {
        if k < n {
          assert pre[k] == descriptors[k];
          assert InstalledIn(h', heap, chain, pre[k]);
          assert descriptors[k].0 != p;
        }
      }
    }
  }

  /** A patch of other properties changes neither the owner of `p` nor its owner's descriptor. */
  lemma OwnerStable(heap: Heap, records: seq<PatchRecord>, chain: seq<Obj>, descriptors: seq<(Prop, Descriptor)>, p: Prop)
    requires |chain| > 0 && DistinctProps(descriptors) && Avoids(descriptors, p)
    requires var h := ApplyAll(heap, records, chain, descriptors).0;
      forall key :: key !in PatchedKeys(heap, chain, descriptors) ==>
        (key in h <==> key in heap) && (key in heap ==> h[key] == heap[key])
    ensures var h := ApplyAll(heap, records, chain, descriptors).0;
      && Owner(chain, p, h) == Owner(chain, p, heap)
      && RecordFor(h, chain, p) == RecordFor(heap, chain, p)
  {
    var h := ApplyAll(heap, records, chain, descriptors).0;
    assert forall x :: (x, p) !in PatchedKeys(heap, chain, descriptors);
    OwnerFrame(chain, p, h, heap);
  }

  /**
   * A patch with distinct properties appends exactly one record per property,
   * in order, each holding the own descriptor its owner had before the patch.
   */
  lemma {:induction false} ApplyAllLog(heap: Heap, records: seq<PatchRecord>, chain: seq<Obj>, descriptors: seq<(Prop, Descriptor)>)
    requires |chain| > 0 && DistinctProps(descriptors)
    ensures var rs := ApplyAll(heap, records, chain, descriptors).1;
      && |rs| == |records| + |descriptors| && rs[..|records|] == records
      && (forall k :: 0 <= k < |descriptors| ==> rs[|records| + k] == RecordFor(heap, chain, descriptors[k].0))
    decreases |descriptors|
  {
    if descriptors != [] {
      var n := |descriptors| - 1;
      var pre := descriptors[..n];
      var p := descriptors[n].0;
      assert DistinctProps(pre);
      assert Avoids(pre, p);
      ApplyAllLog(heap, records, chain, pre);
      ApplyAllFrame(heap, records, chain, pre);
      OwnerStable(heap, records, chain, pre, p);
      var rs' := ApplyAll(heap, records, chain, pre).1;
      var rs := ApplyAll(heap, records, chain, descriptors).1;
      assert rs == rs' + [RecordFor(heap, chain, p)];
      forall k | 0 <= k < n
        ensures rs[|records| + k] == RecordFor(heap, chain, descriptors[k].0)
      {
        assert pre[k] == descriptors[k];
        assert rs[|records| + k] == rs'[|records| + k];
      }
      assert rs[..|records|] == rs'[..|records|];
    }
  }

  // ---------------------------------------------------------------------------
  // unpatchWindow
  // ---------------------------------------------------------------------------

  /**
   * `Object.defineProperty(owner, property, descriptor)` for every record, in
   * order. A record whose descriptor is `undefined` makes `defineProperty`
   * throw a TypeError: the replay stops there (`false`), keeping what it had
   * already restored.
   */
  function Replay(heap: Heap, records: seq<PatchRecord>): (Heap, bool)
    decreases |records|
  {
    if records == [] then (heap, true)
    else
      var (h, ok) := Replay(heap, records[..|records| - 1]);
      var r := records[|records| - 1];
      if !ok || r.descriptor.None? then (h, false)
      else (h[(r.owner, r.property) := r.descriptor.value], true)
  }

  /** The (owner, property) pairs a log of records restores. */
  function RecordKeys(records: seq<PatchRecord>): set<(Obj, Prop)>
  {
    set k | 0 <= k < |records| :: (records[k].owner, records[k].property)
  }

  /** The replay succeeds exactly when every record holds a descriptor. */
  lemma {:induction false} ReplaySucceeds(heap: Heap, records: seq<PatchRecord>)
    ensures Replay(heap, records).1 <==> forall k :: 0 <= k < |records| ==> records[k].descriptor.Some?
    decreases |records|
  {
    if records != [] {
      var n := |records| - 1;
      ReplaySucceeds(heap, records[..n]);
      assert forall k :: 0 <= k < n ==> records[..n][k] == records[k];
    }
  }

  /** Once a record has made `defineProperty` throw, the later records are never replayed. */
  lemma {:induction false} ReplayStops(heap: Heap, records: seq<PatchRecord>, n: nat)
    requires n <= |records| && !Replay(heap, records[..n]).1
    ensures Replay(heap, records) == Replay(heap, records[..n])
    decreases |records| - n
  {
    if n < |records| {
      var m := |records| - 1;
      if n == m {
        assert records[..m] == records[..n];
      } else {
        assert records[..m][..n] == records[..n];
        ReplayStops(heap, records[..m], n);
      }
    } else {
      assert records[..n] == records;
    }
  }

  /** The keys of a log grow by the key of each record appended to it. */
  lemma RecordKeysSnoc(records: seq<PatchRecord>)
    requires records != []
    ensures var n := |records| - 1;
      RecordKeys(records) == RecordKeys(records[..n]) + {(records[n].owner, records[n].property)}
  {
    var n := |records| - 1;
    var pre := records[..n];
    forall key | key in RecordKeys(records) ensures key in RecordKeys(pre) + {(records[n].owner, records[n].property)} {
      var k :| 0 <= k < |records| && key == (records[k].owner, records[k].property);
      if k < n {
        assert key == (pre[k].owner, pre[k].property);
      }
    }
    forall key | key in RecordKeys(pre) ensures key in RecordKeys(records) {
      var k :| 0 <= k < |pre| && key == (pre[k].owner, pre[k].property);
      assert pre[k] == records[k];
    }
  }

  /** Replaying records leaves every own property no record names alone. */
  lemma {:induction false} ReplayFrame(heap: Heap, records: seq<PatchRecord>)
    ensures var h := Replay(heap, records).0;
      forall key :: key !in RecordKeys(records) ==> (key in h <==> key in heap) && (key in heap ==> h[key] == heap[key])
    decreases |records|
  {
    if records != [] {
      var n := |records| - 1;
      ReplayFrame(heap, records[..n]);
      RecordKeysSnoc(records);
    }
  }

  /** Replaying records of distinct properties, each with a descriptor, succeeds and writes each record's descriptor back. */
  lemma {:induction false} ReplayEffect(heap: Heap, records: seq<PatchRecord>)
    requires forall k :: 0 <= k < |records| ==> records[k].descriptor.Some?
    requires forall i, j :: 0 <= i < j < |records| ==> records[i].property != records[j].property
    ensures var (h, ok) := Replay(heap, records);
      && ok
      && (forall k :: 0 <= k < |records| ==>
            (records[k].owner, records[k].property) in h && h[(records[k].owner, records[k].property)] == records[k].descriptor.value)
    decreases |records|
  {
    if records != [] {
      var n := |records| - 1;
      var pre := records[..n];
      ReplayEffect(heap, pre);
      var h' := Replay(heap, pre).0;
      var h := Replay(heap, records).0;
      var last := (records[n].owner, records[n].property);
      assert Replay(heap, records) == (h'[last := records[n].descriptor.value], true);
      forall k | 0 <= k < |records|
        ensures (records[k].owner, records[k].property) in h && h[(records[k].owner, records[k].property)] == records[k].descriptor.value
      {
        if k < n {
          assert pre[k] == records[k];
          assert records[k].property != records[n].property;
        }
      }
    }
  }

  /**
   * Restoring undoes patching: replaying the log that a patch with distinct
   * properties, each owned somewhere in the chain, wrote gives back the heap
   * as it was before the patch.
   */
  lemma PatchThenRestore(heap: Heap, chain: seq<Obj>, descriptors: seq<(Prop, Descriptor)>)
    requires |chain| > 0 && DistinctProps(descriptors)
    requires forall k :: 0 <= k < |descriptors| ==> Found(chain, descriptors[k].0, heap)
    ensures var (patched, log) := ApplyAll(heap, [], chain, descriptors);
      Replay(patched, log) == (heap, true)
  {
    var patched := ApplyAll(heap, [], chain, descriptors).0;
    var log := ApplyAll(heap, [], chain, descriptors).1;
    ApplyAllFrame(heap, [], chain, descriptors);
    ApplyAllLog(heap, [], chain, descriptors);
    assert |log| == |descriptors|;
    assert forall k :: 0 <= k < |descriptors| ==> log[k] == RecordFor(heap, chain, descriptors[k].0) by {
      assert forall k :: 0 <= k < |descriptors| ==> log[k] == log[0 + k];
    }
    LogKeys(heap, chain, descriptors, log);
    assert forall k :: 0 <= k < |log| ==> log[k].property == descriptors[k].0;
    ReplayEffect(patched, log);
    ReplayFrame(patched, log);
    RestoredHeap(heap, patched, Replay(patched, log).0, log, PatchedKeys(heap, chain, descriptors));
  }

  /** The records of a patch name exactly the pairs it redefines, and each holds a descriptor. */
  lemma LogKeys(heap: Heap, chain: seq<Obj>, descriptors: seq<(Prop, Descriptor)>, log: seq<PatchRecord>)
    requires |chain| > 0 && |log| == |descriptors|
    requires forall k :: 0 <= k < |descriptors| ==> log[k] == RecordFor(heap, chain, descriptors[k].0)
    requires forall k :: 0 <= k < |descriptors| ==> Found(chain, descriptors[k].0, heap)
    ensures RecordKeys(log) == PatchedKeys(heap, chain, descriptors)
    ensures forall k :: 0 <= k < |log| ==>
      (log[k].owner, log[k].property) in heap && log[k].descriptor == Some(heap[(log[k].owner, log[k].property)])
  {
    var keys := PatchedKeys(heap, chain, descriptors);
    forall key | key in RecordKeys(log) ensures key in keys {
      var k :| 0 <= k < |log| && key == (log[k].owner, log[k].property);
    }
    forall key | key in keys ensures key in RecordKeys(log) {
      var k :| 0 <= k < |descriptors| && key == (Owner(chain, descriptors[k].0, heap), descriptors[k].0);
      assert key == (log[k].owner, log[k].property);
    }
  }

  /** Writing the original descriptors back over the patched pairs gives back the original heap. */
  lemma RestoredHeap(heap: Heap, patched: Heap, restored: Heap, log: seq<PatchRecord>, keys: set<(Obj, Prop)>)
    requires RecordKeys(log) == keys
    requires forall k :: 0 <= k < |log| ==>
      (log[k].owner, log[k].property) in heap && log[k].descriptor == Some(heap[(log[k].owner, log[k].property)])
    requires forall key :: key !in keys ==> (key in patched <==> key in heap) && (key in heap ==> patched[key] == heap[key])
    requires forall k :: 0 <= k < |log| ==>
      (log[k].owner, log[k].property) in restored && restored[(log[k].owner, log[k].property)] == log[k].descriptor.value
    requires forall key :: key !in keys ==> (key in restored <==> key in patched) && (key in patched ==> restored[key] == patched[key])
    ensures restored == heap
  {
    forall key ensures (key in restored <==> key in heap) && (key in heap ==> restored[key] == heap[key]) {
      if key in keys {
        var k :| 0 <= k < |log| && key == (log[k].owner, log[k].property);
      }
    }
  }

  // ---------------------------------------------------------------------------
  // findOriginalDescriptor
  // ---------------------------------------------------------------------------

  predicate Matches(r: PatchRecord, target: Obj, p: Prop)
  {
    r.target == target && r.property == p
  }

  /**
   * The descriptor of the first record for `target` and `p`: `None` stands for
   * `null` (no such record), `Some(None)` for a recorded `undefined`.
   */
  function OriginalDescriptor(records: seq<PatchRecord>, target: Obj, p: Prop): (r: Option<Option<Descriptor>>)
    ensures r.Some? <==> exists i :: 0 <= i < |records| && Matches(records[i], target, p)
    ensures r.Some? ==> exists i :: (0 <= i < |records| && Matches(records[i], target, p)
      && r.value == records[i].descriptor && forall j :: 0 <= j < i ==> !Matches(records[j], target, p))
  {
    if records == [] then None
    else if Matches(records[0], target, p) then Some(records[0].descriptor)
    else
      var r := OriginalDescriptor(records[1..], target, p);
      assert forall i :: 1 <= i < |records| ==> records[i] == records[1..][i - 1];
      if r.Some? then
        var i :| 0 <= i < |records[1..]| && Matches(records[1..][i], target, p)
          && r.value == records[1..][i].descriptor && forall j :: 0 <= j < i ==> !Matches(records[1..][j], target, p);
        assert Matches(records[i + 1], target, p) && forall j :: 0 <= j < i + 1 ==> !Matches(records[j], target, p);
        r
      else r
  }

  /** Since the log is only appended to, a later patch never changes what an earlier record says. */
  lemma {:induction false} OriginalDescriptorAppend(a: seq<PatchRecord>, b: seq<PatchRecord>, target: Obj, p: Prop)
    ensures OriginalDescriptor(a + b, target, p) ==
      if OriginalDescriptor(a, target, p).Some? then OriginalDescriptor(a, target, p) else OriginalDescriptor(b, target, p)
    decreases |a|
  {
    if a != [] {
      OriginalDescriptorAppend(a[1..], b, target, p);
      assert (a + b)[1..] == a[1..] + b;
    } else {
      assert a + b == b;
    }
  }

  // ---------------------------------------------------------------------------
  // The mock descriptors
  // ---------------------------------------------------------------------------

  /** `{ value, writable: false }`. */
  function Fixed(name: string): Descriptor
  {
    Descriptor(Some(Host(name)), Some(false), None, None)
  }

  /** `{ value }`. */
  function Plain(name: string): Descriptor
  {
    Descriptor(Some(Host(name)), None, None, None)
  }

  /** `{ get }`, with a getter computed by code outside this model. */
  function Computed(name: string): Descriptor
  {
    Descriptor(None, None, Some(ForeignGetter(name)), None)
  }

  /** `WINDOW_MOCK_DESCRIPTORS`, in declaration order. */
  const WINDOW_MOCK_DESCRIPTORS: seq<(Prop, Descriptor)> := [
    ("cancelAnimationFrame", Fixed("mockedCancelAnimationFrame")),
    ("clearInterval", Fixed("mockedClearInterval")),
    ("clearTimeout", Fixed("mockedClearTimeout")),
    ("Date", Fixed("MockDate")),
    ("fetch", Fixed("mockedFetch")),
    ("history", Plain("mockHistory")),
    ("innerHeight", Computed("innerHeight")),
    ("innerWidth", Computed("innerWidth")),
    ("localStorage", Fixed("mockLocalStorage")),
    ("matchMedia", Plain("mockedMatchMedia")),
    ("Math", Plain("MockMath")),
    ("navigator", Plain("mockNavigator")),
    ("Notification", Plain("MockNotification")),
    ("outerHeight", Computed("outerHeight")),
    ("outerWidth", Computed("outerWidth")),
    ("Request", Fixed("MockRequest")),
    ("requestAnimationFrame", Fixed("mockedRequestAnimationFrame")),
    ("Response", Fixed("MockResponse")),
    ("sessionStorage", Fixed("mockSessionStorage")),
    ("setInterval", Fixed("mockedSetInterval")),
    ("setTimeout", Fixed("mockedSetTimeout")),
    ("SharedWorker", Plain("MockSharedWorker")),
    ("WebSocket", Plain("MockWebSocket")),
    ("Worker", Plain("MockWorker")),
    ("XMLHttpRequest", Plain("MockXMLHttpRequest"))
  ]

  /** `DOCUMENT_MOCK_DESCRIPTORS`: the cookie goes to the cookie mock, the title to `mockTitle`. */
  const DOCUMENT_MOCK_DESCRIPTORS: seq<(Prop, Descriptor)> := [
    ("cookie", Descriptor(None, None, Some(ForeignGetter("mockCookie.get")), Some(ForeignSetter("mockCookie.set")))),
    ("title", Descriptor(None, None, Some(MockTitleGetter), Some(MockTitleSetter)))
  ]

  // ---------------------------------------------------------------------------
  // getTitle
  // ---------------------------------------------------------------------------

  /** What reading a property or calling a getter gives. */
  datatype Outcome = Returned(v: Val) | ForeignResult(getter: string) | TypeError

  /** `getter.call(document)`; calling an absent getter throws. */
  function CallGetter(getter: Option<Getter>, mockTitle: string, nativeTitle: string): (r: Outcome)
    ensures getter == Some(MockTitleGetter) ==> r == Returned(Text(mockTitle))
    ensures getter == Some(NativeTitleGetter) ==> r == Returned(Text(nativeTitle))
    ensures r.TypeError? <==> getter.None?
  {
    match getter
    case None => TypeError
    case Some(MockTitleGetter) => Returned(Text(mockTitle))
    case Some(NativeTitleGetter) => Returned(Text(nativeTitle))
    case Some(ForeignGetter(name)) => ForeignResult(name)
  }

  /** Reading `chain[0][p]` through the chain: the owner's value, or what its getter returns. */
  function ReadProperty(heap: Heap, chain: seq<Obj>, p: Prop, mockTitle: string, nativeTitle: string): (r: Outcome)
    requires |chain| > 0
    ensures !Found(chain, p, heap) ==> r == Returned(Undefined)
    ensures !r.TypeError?
  {
    var owner := Owner(chain, p, heap);
    if (owner, p) !in heap then Returned(Undefined)
    else
      var d := heap[(owner, p)];
      if d.getter.Some? then CallGetter(d.getter, mockTitle, nativeTitle)
      else if d.value.Some? then Returned(d.value.value)
      else Returned(Undefined)
  }

  /**
   * `getTitle()`: the getter of the original `document.title` descriptor when
   * one was recorded, else a plain read of `document.title`.
   */
  function TitleOf(records: seq<PatchRecord>, heap: Heap, documentChain: seq<Obj>, mockTitle: string, nativeTitle: string): Outcome
    requires |documentChain| > 0
  {
    match OriginalDescriptor(records, documentChain[0], "title")
    case Some(Some(d)) => CallGetter(d.getter, mockTitle, nativeTitle)
    case _ => ReadProperty(heap, documentChain, "title", mockTitle, nativeTitle)
  }

  /**
   * Once the document descriptors are patched over a document whose title
   * comes from the browser's own accessor, `document.title` reads the mocked
   * title while `getTitle` still reads the browser's.
   */
  lemma TitleAfterPatch(heap: Heap, records: seq<PatchRecord>, documentChain: seq<Obj>, mockTitle: string, nativeTitle: string)
    requires |documentChain| > 0
    requires OriginalDescriptor(records, documentChain[0], "title").None?
    requires Found(documentChain, "title", heap)
    requires heap[(Owner(documentChain, "title", heap), "title")].getter == Some(NativeTitleGetter)
    ensures var (patched, log) := ApplyAll(heap, records, documentChain, DOCUMENT_MOCK_DESCRIPTORS);
      && TitleOf(log, patched, documentChain, mockTitle, nativeTitle) == Returned(Text(nativeTitle))
      && ReadProperty(patched, documentChain, "title", mockTitle, nativeTitle) == Returned(Text(mockTitle))
  {
    var chain := documentChain;
    var descs := DOCUMENT_MOCK_DESCRIPTORS;
    var (h1, r1) := ApplyOne(heap, records, chain, descs[0]);
    assert descs[..1][..0] == [] && descs[..1] == [descs[0]] && descs[..2] == descs;
    assert ApplyAll(heap, records, chain, descs[..1]) == (h1, r1);
    var (patched, log) := ApplyOne(h1, r1, chain, descs[1]);
    assert ApplyAll(heap, records, chain, descs) == (patched, log);
    OwnerFrame(chain, "title", h1, heap);
    var o := Owner(chain, "title", heap);
    assert RecordFor(h1, chain, "title") == RecordFor(heap, chain, "title");
    TitleRecorded(records, r1[|records|], RecordFor(heap, chain, "title"), chain[0]);
    assert log == records + [r1[|records|], RecordFor(heap, chain, "title")];
    assert patched[(o, "title")] == Installed(descs[1].1);
    OwnerFrame(chain, "title", patched, h1);
  }

  /** The first record for the document's title decides what `getTitle` sees. */
  lemma TitleRecorded(records: seq<PatchRecord>, cookie: PatchRecord, title: PatchRecord, document: Obj)
    requires OriginalDescriptor(records, document, "title").None?
    requires cookie.property == "cookie" && Matches(title, document, "title")
    ensures OriginalDescriptor(records + [cookie, title], document, "title") == Some(title.descriptor)
  {
    OriginalDescriptorAppend(records, [cookie, title], document, "title");
    assert [cookie, title][1..] == [title];
  }

  // ---------------------------------------------------------------------------
  // setTitle
  // ---------------------------------------------------------------------------

  /** An accessor property: one with a getter or a setter. */
  predicate IsAccessor(d: Descriptor)
  {
    d.getter.Some? || d.setter.Some?
  }

  /** What the assignment `chain[0][p] = v` does in module (strict-mode) code. */
  datatype Write =
    | ViaSetter(setter: Setter)                // the owner's accessor has a setter, which is called
    | Rejected                                 // an accessor without setter, or a read-only data property: TypeError
    | Define(key: (Obj, Prop), d: Descriptor)  // a data property of `chain[0]` is written or created

  /**
   * The assignment `chain[0][p] = v`, resolved through the chain: an accessor
   * found on the owner decides, a writable data property is written on the
   * receiver (shadowing an inherited one), and an absent property is created
   * on the receiver. A data property counts as writable only when it says so.
   */
  function PropertyWrite(heap: Heap, chain: seq<Obj>, p: Prop, v: Val): (w: Write)
    requires |chain| > 0
    ensures w.ViaSetter? <==> Found(chain, p, heap) && heap[(Owner(chain, p, heap), p)].setter.Some?
    ensures w.ViaSetter? ==> heap[(Owner(chain, p, heap), p)].setter == Some(w.setter)
    ensures w.Rejected? <==> (Found(chain, p, heap) &&
      var d := heap[(Owner(chain, p, heap), p)];
      if IsAccessor(d) then d.setter.None? else d.writable != Some(true))
    ensures w.Define? ==> w.key == (chain[0], p) && w.d.value == Some(v) && !IsAccessor(w.d) && w.d.writable == Some(true)
  {
    var owner := Owner(chain, p, heap);
    if (owner, p) !in heap then Define((chain[0], p), Descriptor(Some(v), Some(true), None, None))
    else
      var d := heap[(owner, p)];
      if IsAccessor(d) then (if d.setter.Some? then ViaSetter(d.setter.value) else Rejected)
      else if d.writable != Some(true) then Rejected
      else if owner == chain[0] then Define((owner, p), d.(value := Some(v)))
      else Define((chain[0], p), Descriptor(Some(v), Some(true), None, None))
  }

  /** A write that defines a data property is seen by the next read: the receiver now owns the property. */
  lemma WriteThenRead(heap: Heap, chain: seq<Obj>, p: Prop, v: Val, mockTitle: string, nativeTitle: string)
    requires |chain| > 0 && PropertyWrite(heap, chain, p, v).Define?
    ensures var w := PropertyWrite(heap, chain, p, v);
      ReadProperty(heap[w.key := w.d], chain, p, mockTitle, nativeTitle) == Returned(v)
  {
    var w := PropertyWrite(heap, chain, p, v);
    assert FindPropertyOwner(chain, p, heap[w.key := w.d]) == 0;
  }

  /** The part of the state a title setter can change. */
  datatype TitleState = TitleState(heap: Heap, mockTitle: string, nativeTitle: string, effects: seq<Effect>)

  /** `setter.call(document, value)`. */
  function CallSetter(setter: Setter, value: string, s: TitleState): TitleState
  {
    match setter
    case MockTitleSetter => s.(mockTitle := value)
    case NativeTitleSetter => s.(nativeTitle := value)
    case ForeignSetter(name) => s.(effects := s.effects + [ForeignSet(name, value)])
  }

  /**
   * `setTitle(value)`: the new state, and whether it threw. The setter of the
   * original `document.title` descriptor when one was recorded (calling an
   * absent one throws), else the assignment `document.title = value`.
   */
  function SetTitleOf(records: seq<PatchRecord>, s: TitleState, documentChain: seq<Obj>, value: string): (TitleState, bool)
    requires |documentChain| > 0
  {
    match OriginalDescriptor(records, documentChain[0], "title")
    case Some(Some(d)) =>
      if d.setter.None? then (s, true) else (CallSetter(d.setter.value, value, s), false)
    case _ =>
      match PropertyWrite(s.heap, documentChain, "title", Text(value))
      case ViaSetter(setter) => (CallSetter(setter, value, s), false)
      case Rejected => (s, true)
      case Define(key, d) => (s.(heap := s.heap[key := d]), false)
  }

  /** A title accessor pair whose getter reads what its setter writes: the mock's or the browser's. */
  predicate PairedTitle(d: Descriptor)
  {
    || (d.getter == Some(MockTitleGetter) && d.setter == Some(MockTitleSetter))
    || (d.getter == Some(NativeTitleGetter) && d.setter == Some(NativeTitleSetter))
  }

  /** The title `setTitle` writes to reads back what was written, and writing it does not throw. */
  predicate TitleWritable(records: seq<PatchRecord>, heap: Heap, documentChain: seq<Obj>)
    requires |documentChain| > 0
  {
    match OriginalDescriptor(records, documentChain[0], "title")
    case Some(Some(d)) => PairedTitle(d)
    case _ =>
      Found(documentChain, "title", heap) ==>
        var d := heap[(Owner(documentChain, "title", heap), "title")];
        PairedTitle(d) || (!IsAccessor(d) && d.writable == Some(true))
  }

  /**
   * `getTitle()` right after `setTitle(value)` gives `value`, before patching
   * (the browser's accessor) as after it (the recorded browser accessor, or
   * the mock's), and also when the title is a plain writable or absent property.
   */
  lemma SetThenGetTitle(records: seq<PatchRecord>, s: TitleState, documentChain: seq<Obj>, value: string)
    requires |documentChain| > 0 && TitleWritable(records, s.heap, documentChain)
    ensures var (t, threw) := SetTitleOf(records, s, documentChain, value);
      !threw && TitleOf(records, t.heap, documentChain, t.mockTitle, t.nativeTitle) == Returned(Text(value))
  {
    match OriginalDescriptor(records, documentChain[0], "title")
    case Some(Some(d)) =>
    case _ =>
      var w := PropertyWrite(s.heap, documentChain, "title", Text(value));
      if w.Define? {
        WriteThenRead(s.heap, documentChain, "title", Text(value), s.mockTitle, s.nativeTitle);
      }
  }

  // ---------------------------------------------------------------------------
  // The listener registry
  // ---------------------------------------------------------------------------

  /** The third argument of `addEventListener`/`removeEventListener`. */
  datatype ListenerOptions = NoOptions | UseCapture(capture: bool) | Flags(once: bool, capture: bool)

  /** `options?.once` is truthy. */
  predicate IsOnce(options: ListenerOptions)
  {
    options.Flags? && options.once
  }

  /**
   * An event listener, by identity. `owlSynthetic` says whether the source
   * text of the callback matches `/\bnativeToSyntheticEvent\b/`. A `Once`
   * callback is the wrapper the mocked `addEventListener` builds around a
   * `once` callback: it closes over the target's registry and the event type.
   */
  datatype Callback =
    | Listener(id: nat, owlSynthetic: bool)
    | Once(closure: nat, original: Callback, registry: RegistryId, eventType: EventType)

  /** `R_OWL_SYNTHETIC_LISTENER.test(String(callback))`; the wrapper's own text never matches. */
  predicate IsOwlSynthetic(cb: Callback)
  {
    cb.Listener? && cb.owlSynthetic
  }

  /** A registry object (the `{}` that `watchListeners` creates for a target), by identity. */
  type RegistryId = nat

  /** One key of a registry with its set of callbacks, in insertion order. */
  datatype Entry = Entry(eventType: EventType, callbacks: seq<Callback>)

  predicate DistinctCallbacks(cs: seq<Callback>)
  {
    forall i, j :: 0 <= i < j < |cs| ==> cs[i] != cs[j]
  }

  /** Keys are distinct, every set is a set, and no key maps to an empty set. */
  predicate WellFormed(entries: seq<Entry>)
  {
    && (forall i, j :: 0 <= i < j < |entries| ==> entries[i].eventType != entries[j].eventType)
    && (forall i :: 0 <= i < |entries| ==> entries[i].callbacks != [] && DistinctCallbacks(entries[i].callbacks))
  }

  /** The position of the key `eventType`, or `|entries|` when it is absent. */
  function IndexOf(entries: seq<Entry>, eventType: EventType): (i: nat)
    ensures i <= |entries|
    ensures i < |entries| ==> entries[i].eventType == eventType
    ensures forall j :: 0 <= j < i ==> entries[j].eventType != eventType
  {
    if entries == [] then 0
    else if entries[0].eventType == eventType then 0
    else 1 + IndexOf(entries[1..], eventType)
  }

  /** `listeners[eventType]`, or no callbacks when the key is absent. */
  function Lookup(entries: seq<Entry>, eventType: EventType): seq<Callback>
  {
    var i := IndexOf(entries, eventType);
    if i < |entries| then entries[i].callbacks else []
  }

  /** `registerListener`: create the set if absent, then add the callback to it. */
  function Registered(entries: seq<Entry>, eventType: EventType, cb: Callback): seq<Entry>
  {
    var i := IndexOf(entries, eventType);
    if i == |entries| then entries + [Entry(eventType, [cb])]
    else if cb in entries[i].callbacks then entries
    else entries[i := Entry(eventType, entries[i].callbacks + [cb])]
  }

  /** A callback in front of a set of callbacks keeps it a set exactly when it is not already in it. */
  lemma DistinctCons(c: Callback, cs: seq<Callback>)
    ensures DistinctCallbacks([c] + cs) <==> c !in cs && DistinctCallbacks(cs)
  {
    var s := [c] + cs;
    assert s[1..] == cs;
    if DistinctCallbacks(s) {
      forall i, j | 0 <= i < j < |cs| ensures cs[i] != cs[j] {
        assert s[i + 1] != s[j + 1];
      }
      forall j | 0 <= j < |cs| ensures cs[j] != c {
        assert s[0] != s[j + 1];
      }
    }
    if c !in cs && DistinctCallbacks(cs) {
      forall i, j | 0 <= i < j < |s| ensures s[i] != s[j] {
        if i > 0 {
          assert s[i] == cs[i - 1] && s[j] == cs[j - 1];
        } else {
          assert s[j] == cs[j - 1];
        }
      }
    }
  }

  /** `set.delete(cb)`. */
  function Without(cs: seq<Callback>, cb: Callback): (r: seq<Callback>)
    ensures forall c :: c in r <==> c in cs && c != cb
    ensures DistinctCallbacks(cs) ==> DistinctCallbacks(r)
    ensures cb !in cs ==> r == cs
  {
    if cs == [] then []
    else
      var rest := Without(cs[1..], cb);
      assert cs == [cs[0]] + cs[1..];
      DistinctCons(cs[0], cs[1..]);
      DistinctCons(cs[0], rest);
      if cs[0] == cb then rest else [cs[0]] + rest
  }

  /** `unregisterListener`: nothing when the key is absent; delete the key once its set is empty. */
  function Unregistered(entries: seq<Entry>, eventType: EventType, cb: Callback): seq<Entry>
  {
    var i := IndexOf(entries, eventType);
    if i == |entries| then entries
    else
      var rest := Without(entries[i].callbacks, cb);
      if rest == [] then entries[..i] + entries[i + 1..] else entries[i := Entry(eventType, rest)]
  }

  lemma LookupAt(entries: seq<Entry>, i: nat)
    requires WellFormed(entries) && i < |entries|
    ensures Lookup(entries, entries[i].eventType) == entries[i].callbacks
  {
  }

  /** In a well-formed registry a key is present exactly when it has callbacks. */
  lemma LookupEmpty(entries: seq<Entry>, eventType: EventType)
    requires WellFormed(entries)
    ensures Lookup(entries, eventType) == [] <==> forall i :: 0 <= i < |entries| ==> entries[i].eventType != eventType
  {
  }

  /**
   * After registering, the callback is in the set of its eventType, which was
   * created when absent; registering a callback already present changes
   * nothing; other types keep their sets; the registry stays well formed.
   */
  lemma RegisteredSpec(entries: seq<Entry>, eventType: EventType, cb: Callback)
    requires WellFormed(entries)
    ensures var r := Registered(entries, eventType, cb);
      && WellFormed(r)
      && Lookup(r, eventType) == (if cb in Lookup(entries, eventType) then Lookup(entries, eventType) else Lookup(entries, eventType) + [cb])
      && (forall u :: u != eventType ==> Lookup(r, u) == Lookup(entries, u))
  {
    var i := IndexOf(entries, eventType);
    if i == |entries| {
      RegisteredNewKey(entries, eventType, cb);
    } else if cb !in entries[i].callbacks {
      RegisteredExtends(entries, i, cb);
    }
  }

  lemma RegisteredNewKey(entries: seq<Entry>, eventType: EventType, cb: Callback)
    requires WellFormed(entries) && IndexOf(entries, eventType) == |entries|
    ensures var r := entries + [Entry(eventType, [cb])];
      && WellFormed(r)
      && Lookup(r, eventType) == [cb]
      && (forall u :: u != eventType ==> Lookup(r, u) == Lookup(entries, u))
  {
    var r := entries + [Entry(eventType, [cb])];
    assert r[|entries|].eventType == eventType;
    forall u | u != eventType ensures Lookup(r, u) == Lookup(entries, u) {
      var j := IndexOf(entries, u);
      if j < |entries| {
        assert r[j] == entries[j];
      }
    }
  }

  lemma RegisteredExtends(entries: seq<Entry>, i: nat, cb: Callback)
    requires WellFormed(entries) && i < |entries| && cb !in entries[i].callbacks
    ensures var r := entries[i := Entry(entries[i].eventType, entries[i].callbacks + [cb])];
      && WellFormed(r)
      && Lookup(r, entries[i].eventType) == entries[i].callbacks + [cb]
      && (forall u :: u != entries[i].eventType ==> Lookup(r, u) == Lookup(entries, u))
  {
    var r := entries[i := Entry(entries[i].eventType, entries[i].callbacks + [cb])];
    assert forall j :: 0 <= j < |r| ==> r[j].eventType == entries[j].eventType;
    assert DistinctCallbacks(r[i].callbacks);
    assert WellFormed(r);
    LookupAt(r, i);
    forall u | u != entries[i].eventType ensures Lookup(r, u) == Lookup(entries, u) {
      var j := IndexOf(entries, u);
      if j < |entries| {
        assert r[j] == entries[j];
      }
    }
  }

  /** Registering is idempotent: the second registration of a callback leaves a single entry. */
  lemma RegisteredTwice(entries: seq<Entry>, eventType: EventType, cb: Callback)
    requires WellFormed(entries)
    ensures Registered(Registered(entries, eventType, cb), eventType, cb) == Registered(entries, eventType, cb)
    ensures var cs := Lookup(Registered(entries, eventType, cb), eventType);
      forall i :: 0 <= i < |cs| && cs[i] == cb ==> forall j :: 0 <= j < |cs| && cs[j] == cb ==> i == j
  {
    RegisteredSpec(entries, eventType, cb);
    var r := Registered(entries, eventType, cb);
    var i := IndexOf(r, eventType);
    assert i < |r|;
  }

  /**
   * After unregistering, the callback is gone from the set of its eventType; the
   * key is deleted when that set became empty, so no key maps to an empty set;
   * other types and other callbacks are untouched; an absent key is a no-op.
   */
  lemma UnregisteredSpec(entries: seq<Entry>, eventType: EventType, cb: Callback)
    requires WellFormed(entries)
    ensures var r := Unregistered(entries, eventType, cb);
      && WellFormed(r)
      && Lookup(r, eventType) == Without(Lookup(entries, eventType), cb)
      && (forall u :: u != eventType ==> Lookup(r, u) == Lookup(entries, u))
      && (IndexOf(entries, eventType) == |entries| ==> r == entries)
  {
    var i := IndexOf(entries, eventType);
    if i < |entries| {
      if Without(entries[i].callbacks, cb) == [] {
        UnregisteredDeletes(entries, i, cb);
      } else {
        UnregisteredShrinks(entries, i, cb);
      }
    }
  }

  lemma UnregisteredDeletes(entries: seq<Entry>, i: nat, cb: Callback)
    requires WellFormed(entries) && i < |entries| && Without(entries[i].callbacks, cb) == []
    ensures var r := entries[..i] + entries[i + 1..];
      && WellFormed(r)
      && (forall u :: Lookup(r, u) == if u == entries[i].eventType then [] else Lookup(entries, u))
  {
    var r := entries[..i] + entries[i + 1..];
    assert forall j :: 0 <= j < i ==> r[j] == entries[j];
    assert forall j :: i <= j < |r| ==> r[j] == entries[j + 1];
    assert WellFormed(r);
    forall u ensures Lookup(r, u) == if u == entries[i].eventType then [] else Lookup(entries, u) {
      var j := IndexOf(entries, u);
      if j == |entries| || j == i {
        forall m | 0 <= m < |r| ensures r[m].eventType != u {
          if m < i {
            assert r[m] == entries[m];
          } else {
            assert r[m] == entries[m + 1];
          }
        }
        LookupEmpty(r, u);
      } else if j < i {
        assert r[j] == entries[j];
        LookupAt(r, j);
      } else {
        assert r[j - 1] == entries[j];
        LookupAt(r, j - 1);
      }
    }
  }

  lemma UnregisteredShrinks(entries: seq<Entry>, i: nat, cb: Callback)
    requires WellFormed(entries) && i < |entries| && Without(entries[i].callbacks, cb) != []
    ensures var r := entries[i := Entry(entries[i].eventType, Without(entries[i].callbacks, cb))];
      && WellFormed(r)
      && (forall u :: Lookup(r, u) == if u == entries[i].eventType then Without(entries[i].callbacks, cb) else Lookup(entries, u))
  {
    var r := entries[i := Entry(entries[i].eventType, Without(entries[i].callbacks, cb))];
    assert forall j :: 0 <= j < |r| ==> r[j].eventType == entries[j].eventType;
    forall u ensures Lookup(r, u) == if u == entries[i].eventType then Without(entries[i].callbacks, cb) else Lookup(entries, u) {
      assert IndexOf(r, u) == IndexOf(entries, u);
    }
  }

  /**
   * What is left of a snapshot `snap` of a registry once the callbacks of the
   * first `k` keys, and the first `j` callbacks of key `k`, have been removed.
   */
  function Remaining(snap: seq<Entry>, k: nat, j: nat): seq<Entry>
    requires k < |snap| && j <= |snap[k].callbacks|
  {
    (if j < |snap[k].callbacks| then [Entry(snap[k].eventType, snap[k].callbacks[j..])] else []) + snap[k + 1..]
  }

  /** Removing the callbacks of a well-formed registry in snapshot order deletes them one by one. */
  lemma RemainingStep(snap: seq<Entry>, k: nat, j: nat)
    requires WellFormed(snap) && k < |snap| && j < |snap[k].callbacks|
    ensures Unregistered(Remaining(snap, k, j), snap[k].eventType, snap[k].callbacks[j]) == Remaining(snap, k, j + 1)
  {
    var cs := snap[k].callbacks;
    var e := Remaining(snap, k, j);
    assert e[0].eventType == snap[k].eventType;
    assert IndexOf(e, snap[k].eventType) == 0;
    WithoutFirst(cs[j..]);
    assert cs[j..][1..] == cs[j + 1..];
    if j + 1 == |cs| {
      assert e[1..] == snap[k + 1..];
    }
  }

  lemma WithoutFirst(cs: seq<Callback>)
    requires cs != [] && DistinctCallbacks(cs)
    ensures Without(cs, cs[0]) == cs[1..]
  {
    assert cs[0] !in cs[1..];
  }

  /** Before the first removal for key `k` the rest of the snapshot is left; after the last, the keys after `k`. */
  lemma RemainingEnds(snap: seq<Entry>, k: nat)
    requires WellFormed(snap) && k < |snap|
    ensures Remaining(snap, k, 0) == snap[k..]
    ensures Remaining(snap, k, |snap[k].callbacks|) == snap[k + 1..]
  {
    assert snap[k].callbacks[0..] == snap[k].callbacks;
    assert snap[k..] == [snap[k]] + snap[k + 1..];
  }

  // ---------------------------------------------------------------------------
  // cleanupWindow: the effects it has
  // ---------------------------------------------------------------------------

  /** The mocks of other modules that `cleanupWindow` clears. */
  datatype Store = Cookie | History | Location | LocalStorage | SessionStorage

  /** A call that leaves the bookkeeping of this module: into the browser or into another mock. */
  datatype Effect =
    | NativeAdd(target: Obj, eventType: EventType, callback: Callback, options: ListenerOptions)
    | NativeRemove(target: Obj, eventType: EventType, callback: Callback, options: ListenerOptions)
    | Invoke(callback: Callback)
    | Clear(store: Store)
    | ForeignSet(setter: string, value: string)

  /** Cookies, history, location, then the two storages, as `cleanupWindow` clears them. */
  const CLEAR_EFFECTS: seq<Effect> := [Clear(Cookie), Clear(History), Clear(Location), Clear(LocalStorage), Clear(SessionStorage)]

  /** `target.removeEventListener(type, cb)` for each callback, in order. */
  function CallbackRemovals(target: Obj, eventType: EventType, cbs: seq<Callback>): (r: seq<Effect>)
    ensures |r| == |cbs|
    ensures forall i :: 0 <= i < |cbs| ==> r[i] == NativeRemove(target, eventType, cbs[i], NoOptions)
  {
    if cbs == [] then []
    else CallbackRemovals(target, eventType, cbs[..|cbs| - 1]) + [NativeRemove(target, eventType, cbs[|cbs| - 1], NoOptions)]
  }

  /** The removals for every callback of every key of one registry, in `Object.entries` order. */
  function TableRemovals(target: Obj, entries: seq<Entry>): seq<Effect>
  {
    if entries == [] then []
    else
      var last := entries[|entries| - 1];
      TableRemovals(target, entries[..|entries| - 1]) + CallbackRemovals(target, last.eventType, last.callbacks)
  }

  /** The removals of `cleanupWindow`: every watched target in the DOM, in watch order. */
  function Removals(order: seq<Obj>, snapshot: map<Obj, seq<Entry>>, inDom: set<Obj>): seq<Effect>
  {
    if order == [] then []
    else
      var t := order[|order| - 1];
      Removals(order[..|order| - 1], snapshot, inDom)
        + (if t in inDom && t in snapshot then TableRemovals(t, snapshot[t]) else [])
  }

  /** The removals for one key name exactly its target, its event type and its callbacks. */
  lemma CallbackRemovalsCover(target: Obj, eventType: EventType, cbs: seq<Callback>, e: Effect)
    ensures e in CallbackRemovals(target, eventType, cbs) <==>
      e.NativeRemove? && e.target == target && e.eventType == eventType && e.options == NoOptions && e.callback in cbs
  {
    var cr := CallbackRemovals(target, eventType, cbs);
    if e in cr {
      var j :| 0 <= j < |cr| && cr[j] == e;
      assert e.callback == cbs[j];
    }
    if e.NativeRemove? && e.target == target && e.eventType == eventType && e.options == NoOptions && e.callback in cbs {
      var j :| 0 <= j < |cbs| && cbs[j] == e.callback;
      assert cr[j] == e;
    }
  }

  /** The removals for one registry name exactly its target and the callbacks recorded under each key. */
  lemma {:induction false} TableRemovalsCover(target: Obj, entries: seq<Entry>, e: Effect)
    ensures e in TableRemovals(target, entries) <==>
      && e.NativeRemove? && e.target == target && e.options == NoOptions
      && exists i :: 0 <= i < |entries| && entries[i].eventType == e.eventType && e.callback in entries[i].callbacks
    decreases |entries|
  {
    if entries != [] {
      var n := |entries| - 1;
      var prefix, last := entries[..n], entries[n];
      TableRemovalsCover(target, prefix, e);
      CallbackRemovalsCover(target, last.eventType, last.callbacks, e);
      assert TableRemovals(target, entries) == TableRemovals(target, prefix) + CallbackRemovals(target, last.eventType, last.callbacks);
      if e.NativeRemove? {
        var inPrefix := exists i :: 0 <= i < n && prefix[i].eventType == e.eventType && e.callback in prefix[i].callbacks;
        var inLast := last.eventType == e.eventType && e.callback in last.callbacks;
        if exists i :: 0 <= i < |entries| && entries[i].eventType == e.eventType && e.callback in entries[i].callbacks {
          var i :| 0 <= i < |entries| && entries[i].eventType == e.eventType && e.callback in entries[i].callbacks;
          if i < n {
            assert prefix[i] == entries[i];
          }
          assert inPrefix || inLast;
        }
        if inPrefix {
          var i :| 0 <= i < n && prefix[i].eventType == e.eventType && e.callback in prefix[i].callbacks;
          assert entries[i] == prefix[i];
        }
      }
    }
  }

  /**
   * `cleanupWindow` removes a callback from a target exactly when the target is
   * watched and in the DOM and the callback was recorded for that event type,
   * and it removes nothing else.
   */
  lemma {:induction false} RemovalsCover(order: seq<Obj>, snapshot: map<Obj, seq<Entry>>, inDom: set<Obj>, e: Effect)
    requires forall t :: t in snapshot ==> WellFormed(snapshot[t])
    ensures e in Removals(order, snapshot, inDom) <==>
      && e.NativeRemove? && e.options == NoOptions
      && e.target in order && e.target in inDom && e.target in snapshot
      && e.callback in Lookup(snapshot[e.target], e.eventType)
    decreases |order|
  {
    if order != [] {
      var n := |order| - 1;
      var t := order[n];
      RemovalsCover(order[..n], snapshot, inDom, e);
      assert order == order[..n] + [t];
      if t in inDom && t in snapshot {
        TableRemovalsCover(t, snapshot[t], e);
        if e.NativeRemove? && e.target == t {
          var i := IndexOf(snapshot[t], e.eventType);
          assert forall j :: 0 <= j < |snapshot[t]| && snapshot[t][j].eventType == e.eventType ==> j == i;
        }
      }
    }
  }

  /** Removals summed over a prefix of the watch order extend by the next target's. */
  lemma RemovalsSnoc(order: seq<Obj>, snapshot: map<Obj, seq<Entry>>, inDom: set<Obj>, i: nat)
    requires i < |order|
    ensures Removals(order[..i + 1], snapshot, inDom) ==
      Removals(order[..i], snapshot, inDom)
        + (if order[i] in inDom && order[i] in snapshot then TableRemovals(order[i], snapshot[order[i]]) else [])
  {
    assert order[..i + 1][..i] == order[..i];
  }

  /** The order in which `listenerMap` lists its targets after `watchListeners`: a `Map` keeps first-insertion order. */
  function WatchOrder(order: seq<Obj>, targets: seq<Obj>): (r: seq<Obj>)
    ensures forall t :: t in r <==> t in order || t in targets
    ensures (forall i, j :: 0 <= i < j < |order| ==> order[i] != order[j]) ==> forall i, j :: 0 <= i < j < |r| ==> r[i] != r[j]
    ensures |order| <= |r| && r[..|order|] == order
  {
    if targets == [] then order
    else
      var r := WatchOrder(order, targets[..|targets| - 1]);
      var t := targets[|targets| - 1];
      assert forall u :: u in targets <==> u in targets[..|targets| - 1] || u == t by {
        assert targets == targets[..|targets| - 1] + [t];
      }
      if t in r then r else r + [t]
  }

  /**
   * The listener bookkeeping of the module: `listenerMap` (its targets in
   * insertion order, each with the id of its registry), the registries by id,
   * and the next unused id.
   */
  datatype Watching = Watching(listenerMap: map<Obj, RegistryId>, watchOrder: seq<Obj>,
                               registries: map<RegistryId, seq<Entry>>, nextRegistry: RegistryId)

  /** `listenerMap.set(target, {})`: a fresh, empty registry; a `Map` keeps the position of a key it already has. */
  function WatchOne(w: Watching, target: Obj): Watching
  {
    Watching(w.listenerMap[target := w.nextRegistry],
             if target in w.listenerMap then w.watchOrder else w.watchOrder + [target],
             w.registries[w.nextRegistry := []], w.nextRegistry + 1)
  }

  /** The loop of `watchListeners` over its targets. */
  function WatchAll(w: Watching, targets: seq<Obj>): Watching
    decreases |targets|
  {
    if targets == [] then w else WatchOne(WatchAll(w, targets[..|targets| - 1]), targets[|targets| - 1])
  }

  /** Every id in use is below the next one, and the order lists exactly the watched targets. */
  ghost predicate Fresh(w: Watching)
  {
    && (forall id :: id in w.registries ==> id < w.nextRegistry)
    && (forall t :: t in w.listenerMap <==> t in w.watchOrder)
  }

  /**
   * `watchListeners(...targets)` watches exactly the targets it is given on
   * top of the earlier ones and keeps every existing registry.
   */
  lemma {:induction false} WatchAllFrame(w: Watching, targets: seq<Obj>)
    requires Fresh(w)
    ensures var r := WatchAll(w, targets);
      && Fresh(r) && w.nextRegistry <= r.nextRegistry
      && (forall t :: t in r.listenerMap <==> t in w.listenerMap || t in targets)
      && (forall id :: id in w.registries ==> id in r.registries && r.registries[id] == w.registries[id])
    decreases |targets|
  {
    if targets != [] {
      var n := |targets| - 1;
      var pre, t := targets[..n], targets[n];
      WatchAllFrame(w, pre);
      var m := WatchAll(w, pre);
      assert WatchAll(w, targets) == WatchOne(m, t);
      assert forall u :: u in targets <==> u in pre || u == t by {
        assert targets == pre + [t];
      }
      assert m.nextRegistry !in m.registries;
    }
  }

  /** `watchListeners(...targets)` lists the targets it adds after the earlier ones, in first-insertion order. */
  lemma {:induction false} WatchAllOrder(w: Watching, targets: seq<Obj>)
    requires Fresh(w)
    ensures WatchAll(w, targets).watchOrder == WatchOrder(w.watchOrder, targets)
    decreases |targets|
  {
    if targets != [] {
      var n := |targets| - 1;
      var pre, t := targets[..n], targets[n];
      WatchAllOrder(w, pre);
      WatchAllFrame(w, pre);
      var m := WatchAll(w, pre);
      assert WatchAll(w, targets) == WatchOne(m, t);
      assert t in m.listenerMap <==> t in m.watchOrder;
    }
  }

  /**
   * `watchListeners(...targets)` gives each target a fresh, empty registry,
   * replacing any earlier one, and leaves the other targets' registries alone.
   */
  lemma {:induction false} WatchAllSpec(w: Watching, targets: seq<Obj>)
    requires Fresh(w)
    ensures var r := WatchAll(w, targets);
      && (forall t :: t in targets ==>
            && t in r.listenerMap && r.listenerMap[t] !in w.registries
            && r.listenerMap[t] in r.registries && r.registries[r.listenerMap[t]] == [])
      && (forall t :: t in w.listenerMap && t !in targets ==> t in r.listenerMap && r.listenerMap[t] == w.listenerMap[t])
    decreases |targets|
  {
    if targets != [] {
      var n := |targets| - 1;
      var pre, t := targets[..n], targets[n];
      WatchAllSpec(w, pre);
      WatchAllFrame(w, pre);
      var m := WatchAll(w, pre);
      var r := WatchAll(w, targets);
      assert r == WatchOne(m, t);
      assert forall u :: u in targets <==> u in pre || u == t by {
        assert targets == pre + [t];
      }
      assert m.nextRegistry !in w.registries;
      forall u | u in targets
        ensures && u in r.listenerMap && r.listenerMap[u] !in w.registries
                && r.listenerMap[u] in r.registries && r.registries[r.listenerMap[u]] == []
      {
        if u != t {
          assert m.listenerMap[u] in m.registries;
          assert m.listenerMap[u] != m.nextRegistry;
        }
      }
    }
  }

  /** Every watched target has a registry of its own. */
  predicate Linked(listenerMap: map<Obj, RegistryId>, registries: map<RegistryId, seq<Entry>>)
  {
    && (forall t :: t in listenerMap ==> listenerMap[t] in registries)
    && (forall t, u :: t in listenerMap && u in listenerMap && t != u ==> listenerMap[t] != listenerMap[u])
  }

  /** No target occurs twice. */
  predicate DistinctTargets(order: seq<Obj>)
  {
    forall i, j :: 0 <= i < j < |order| ==> order[i] != order[j]
  }

  /** The registries once `cleanupWindow` has gone through the targets of `done`. */
  function Cleaned(snapshot: map<Obj, seq<Entry>>, done: seq<Obj>, inDom: set<Obj>): (r: map<Obj, seq<Entry>>)
    ensures r.Keys == snapshot.Keys
  {
    map t | t in snapshot :: if t in done && t in inDom then [] else snapshot[t]
  }

  /** Before the loop has gone through any target, nothing is cleaned. */
  lemma CleanedNone(snapshot: map<Obj, seq<Entry>>, inDom: set<Obj>)
    ensures Cleaned(snapshot, [], inDom) == snapshot
  {
  }

  /** Going through one more target of a duplicate-free order empties that target's registry only, if it is in the DOM. */
  lemma CleanedSnoc(snapshot: map<Obj, seq<Entry>>, order: seq<Obj>, inDom: set<Obj>, i: nat)
    requires i < |order| && order[i] in snapshot
    requires DistinctTargets(order)
    ensures Cleaned(snapshot, order[..i], inDom)[order[i]] == snapshot[order[i]]
    ensures Cleaned(snapshot, order[..i + 1], inDom) ==
      if order[i] in inDom then Cleaned(snapshot, order[..i], inDom)[order[i] := []] else Cleaned(snapshot, order[..i], inDom)
  {
    assert order[..i + 1] == order[..i] + [order[i]];
    assert order[i] !in order[..i] by {
      forall j | 0 <= j < i ensures order[..i][j] != order[i] {
        assert order[..i][j] == order[j];
      }
    }
  }

  /** Appending to a trace in two steps is appending the two parts at once. */
  lemma AppendAssoc<T>(a: seq<T>, b: seq<T>, c: seq<T>)
    ensures (a + b) + c == a + (b + c)
  {
  }

  /** One more key of a snapshot appends its callback removals. */
  lemma TableRemovalsSnoc(prior: seq<Effect>, target: Obj, snapshot: seq<Entry>, k: nat)
    requires k < |snapshot|
    ensures prior + TableRemovals(target, snapshot[..k]) + CallbackRemovals(target, snapshot[k].eventType, snapshot[k].callbacks)
         == prior + TableRemovals(target, snapshot[..k + 1])
  {
    assert snapshot[..k + 1][..k] == snapshot[..k];
    AppendAssoc(prior, TableRemovals(target, snapshot[..k]), CallbackRemovals(target, snapshot[k].eventType, snapshot[k].callbacks));
  }

  /** Updating one key twice keeps the second value only. */
  lemma UpdateTwice<K, V>(m: map<K, V>, key: K, a: V, b: V)
    ensures m[key := a][key := b] == m[key := b]
  {
  }

  /** The registries of the watched targets, by target. */
  function SnapshotOf(listenerMap: map<Obj, RegistryId>, registries: map<RegistryId, seq<Entry>>): (s: map<Obj, seq<Entry>>)
    requires forall t :: t in listenerMap ==> listenerMap[t] in registries
    ensures s.Keys == listenerMap.Keys
    ensures forall t :: t in listenerMap ==> s[t] == registries[listenerMap[t]]
  {
    map t | t in listenerMap :: registries[listenerMap[t]]
  }

  /** When no two targets share a registry, changing one target's registry changes what that target alone sees. */
  lemma SnapshotOfUpdate(listenerMap: map<Obj, RegistryId>, registries: map<RegistryId, seq<Entry>>, target: Obj, e: seq<Entry>)
    requires Linked(listenerMap, registries)
    requires target in listenerMap
    ensures SnapshotOf(listenerMap, registries[listenerMap[target] := e]) == SnapshotOf(listenerMap, registries)[target := e]
  {
  }

  /**
   * One target of `cleanupWindow`'s listener loop, seen on the registries: the
   * target still has the registry it had when the loop began, and emptying it
   * when the target is in the DOM moves the cleaned registries on by one target.
   */
  lemma CleanedStep(listenerMap: map<Obj, RegistryId>, registries: map<RegistryId, seq<Entry>>,
                    snapshot: map<Obj, seq<Entry>>, order: seq<Obj>, inDom: set<Obj>, i: nat,
                    cleared: seq<Effect>, effects: seq<Effect>)
    requires Linked(listenerMap, registries)
    requires i < |order| && order[i] in listenerMap
    requires DistinctTargets(order)
    requires SnapshotOf(listenerMap, registries) == Cleaned(snapshot, order[..i], inDom)
    requires effects == cleared + Removals(order[..i], snapshot, inDom)
    ensures order[i] in snapshot && registries[listenerMap[order[i]]] == snapshot[order[i]]
    ensures order[i] in inDom ==>
      && SnapshotOf(listenerMap, registries[listenerMap[order[i]] := []]) == Cleaned(snapshot, order[..i + 1], inDom)
      && effects + TableRemovals(order[i], registries[listenerMap[order[i]]]) == cleared + Removals(order[..i + 1], snapshot, inDom)
    ensures order[i] !in inDom ==>
      && SnapshotOf(listenerMap, registries) == Cleaned(snapshot, order[..i + 1], inDom)
      && effects == cleared + Removals(order[..i + 1], snapshot, inDom)
  {
    assert order[i] in SnapshotOf(listenerMap, registries);
    CleanedSnoc(snapshot, order, inDom, i);
    SnapshotOfUpdate(listenerMap, registries, order[i], []);
    RemovalsSnoc(order, snapshot, inDom, i);
    if order[i] in inDom {
      AppendAssoc(cleared, Removals(order[..i], snapshot, inDom), TableRemovals(order[i], snapshot[order[i]]));
    } else {
      assert Removals(order[..i], snapshot, inDom) + [] == Removals(order[..i], snapshot, inDom);
    }
  }

  /** Every registry is still there, and those no watched target reaches are as they were. */
  predicate UnreachedKept(listenerMap: map<Obj, RegistryId>, before: map<RegistryId, seq<Entry>>, after: map<RegistryId, seq<Entry>>)
  {
    && after.Keys == before.Keys
    && forall id :: id in before && id !in listenerMap.Values ==> after[id] == before[id]
  }

  /** Emptying the registry of a watched target keeps the registries no watched target reaches. */
  lemma UnreachedKeptStep(listenerMap: map<Obj, RegistryId>, before: map<RegistryId, seq<Entry>>,
                          mid: map<RegistryId, seq<Entry>>, after: map<RegistryId, seq<Entry>>, t: Obj, inDom: set<Obj>)
    requires UnreachedKept(listenerMap, before, mid)
    requires t in listenerMap && listenerMap[t] in mid
    requires after == if t in inDom then mid[listenerMap[t] := []] else mid
    ensures UnreachedKept(listenerMap, before, after)
  {
    assert listenerMap[t] in listenerMap.Values;
  }

  /**
   * The invariant of the listener bookkeeping: every registry is well formed
   * and has an id below the next one, no two targets share one, the watch
   * order lists each watched target once, and only a target whose listeners
   * are mocked can have recorded callbacks.
   */
  ghost predicate Consistent(listenerMap: map<Obj, RegistryId>, watchOrder: seq<Obj>,
                             registries: map<RegistryId, seq<Entry>>, nextRegistry: RegistryId, mocked: set<Obj>)
  {
    && (forall id :: id in registries ==> id < nextRegistry && WellFormed(registries[id]))
    && Linked(listenerMap, registries)
    && DistinctTargets(watchOrder)
    && (forall t :: t in listenerMap ==> t in watchOrder)
    && (forall i :: 0 <= i < |watchOrder| ==> watchOrder[i] in listenerMap)
    && (forall t :: t in listenerMap && registries[listenerMap[t]] != [] ==> t in mocked)
  }

  /** Replacing one registry by a well-formed one keeps the invariant, as long as callbacks only land on mocked targets. */
  lemma ConsistentUpdate(listenerMap: map<Obj, RegistryId>, watchOrder: seq<Obj>,
                         registries: map<RegistryId, seq<Entry>>, nextRegistry: RegistryId, mocked: set<Obj>,
                         id: RegistryId, e: seq<Entry>)
    requires Consistent(listenerMap, watchOrder, registries, nextRegistry, mocked)
    requires id in registries && WellFormed(e)
    requires e == [] || registries[id] != [] || forall t :: t in listenerMap && listenerMap[t] == id ==> t in mocked
    ensures Consistent(listenerMap, watchOrder, registries[id := e], nextRegistry, mocked)
  {
    var r := registries[id := e];
    forall t | t in listenerMap && r[listenerMap[t]] != [] ensures t in mocked {
      if listenerMap[t] != id {
        assert r[listenerMap[t]] == registries[listenerMap[t]];
      }
    }
  }

  /** The same, for the registry of a mocked target. */
  lemma ConsistentRecord(listenerMap: map<Obj, RegistryId>, watchOrder: seq<Obj>,
                         registries: map<RegistryId, seq<Entry>>, nextRegistry: RegistryId, mocked: set<Obj>,
                         target: Obj, e: seq<Entry>)
    requires Consistent(listenerMap, watchOrder, registries, nextRegistry, mocked)
    requires target in listenerMap && target in mocked && WellFormed(e)
    ensures Consistent(listenerMap, watchOrder, registries[listenerMap[target] := e], nextRegistry, mocked)
  {
    ConsistentUpdate(listenerMap, watchOrder, registries, nextRegistry, mocked, listenerMap[target], e);
  }

  /** Watching a target keeps the invariant. */
  lemma ConsistentWatch(listenerMap: map<Obj, RegistryId>, watchOrder: seq<Obj>,
                        registries: map<RegistryId, seq<Entry>>, nextRegistry: RegistryId, mocked: set<Obj>, target: Obj)
    requires Consistent(listenerMap, watchOrder, registries, nextRegistry, mocked)
    ensures var w := WatchOne(Watching(listenerMap, watchOrder, registries, nextRegistry), target);
      Consistent(w.listenerMap, w.watchOrder, w.registries, w.nextRegistry, mocked)
  {
    var w := WatchOne(Watching(listenerMap, watchOrder, registries, nextRegistry), target);
    assert nextRegistry !in registries;
    forall i, j | 0 <= i < j < |w.watchOrder| ensures w.watchOrder[i] != w.watchOrder[j] {
      if j == |watchOrder| {
        assert w.watchOrder[i] == watchOrder[i];
      }
    }
    forall t, u | t in w.listenerMap && u in w.listenerMap && t != u ensures w.listenerMap[t] != w.listenerMap[u] {
      if t != target && u != target {
        assert w.listenerMap[t] == listenerMap[t] && w.listenerMap[u] == listenerMap[u];
      }
    }
    forall i | 0 <= i < |w.watchOrder| ensures w.watchOrder[i] in w.listenerMap {
      if i < |watchOrder| {
        assert w.watchOrder[i] == watchOrder[i];
      }
    }
  }

  // ---------------------------------------------------------------------------
  // The module state
  // ---------------------------------------------------------------------------

  /**
   * The module-level state of the browser mock, together with the part of the
   * browser it changes: own properties, and the calls it makes.
   */
  class MockWindow {
    /** The prototype chains of `window` and `document`, each starting with the object itself. */
    const windowChain: seq<Obj>
    const documentChain: seq<Obj>
    const body: Obj
    const head: Obj

    /** The own properties of the browser's objects. */
    var heap: Heap
    /** `originalDescriptors`. */
    var originalDescriptors: seq<PatchRecord>
    /** `listenerMap`: the registry object of each watched target; `watchOrder` lists its keys in insertion order. */
    var listenerMap: map<Obj, RegistryId>
    var watchOrder: seq<Obj>
    /**
     * The contents of every registry object created so far. A registry that
     * `watchListeners` replaced or `unwatchListeners` dropped lives on here, since
     * a `once` wrapper that closed over it can still take itself out of it.
     */
    var registries: map<RegistryId, seq<Entry>>
    /** The identity the next registry object gets. */
    var nextRegistry: RegistryId
    /** The targets whose `addEventListener`/`removeEventListener` were replaced by `mockEventListeners`. */
    var mocked: set<Obj>
    var mockTitle: string
    /** The title the browser's own `document.title` accessor holds. */
    var nativeTitle: string
    /** The identity the next `once` wrapper gets. */
    var nextClosure: nat
    var effects: seq<Effect>

    /** Both prototype chains are known, and the listener bookkeeping keeps its invariant. */
    ghost predicate Valid()
      reads this`listenerMap, this`watchOrder, this`registries, this`nextRegistry, this`mocked
    {
      && |windowChain| > 0 && |documentChain| > 0
      && Consistent(listenerMap, watchOrder, registries, nextRegistry, mocked)
    }

    /** The registry contents of every watched target. */
    function Snapshot(): (s: map<Obj, seq<Entry>>)
      requires Valid()
      reads this`listenerMap, this`watchOrder, this`registries, this`nextRegistry, this`mocked
      ensures s.Keys == listenerMap.Keys
      ensures forall t :: t in listenerMap ==> s[t] == registries[listenerMap[t]]
    {
      SnapshotOf(listenerMap, registries)
    }

    /** The state when the module is loaded: nothing patched, nothing watched, an empty mocked title. */
    constructor (windowChain: seq<Obj>, documentChain: seq<Obj>, body: Obj, head: Obj, heap: Heap, nativeTitle: string)
      requires |windowChain| > 0 && |documentChain| > 0
      ensures Valid()
      ensures this.windowChain == windowChain && this.documentChain == documentChain
      ensures this.body == body && this.head == head && this.heap == heap && this.nativeTitle == nativeTitle
      ensures originalDescriptors == [] && listenerMap == map[] && watchOrder == [] && mocked == {}
      ensures registries == map[] && nextRegistry == 0
      ensures mockTitle == "" && nextClosure == 0 && effects == []
    {
      this.windowChain := windowChain;
      this.documentChain := documentChain;
      this.body := body;
      this.head := head;
      this.heap := heap;
      this.nativeTitle := nativeTitle;
      originalDescriptors := [];
      listenerMap := map[];
      watchOrder := [];
      registries := map[];
      nextRegistry := 0;
      mocked := {};
      mockTitle := "";
      nextClosure := 0;
      effects := [];
    }

    /** `applyPropertyDescriptors(chain[0], descriptors)`. */
    method ApplyPropertyDescriptors(chain: seq<Obj>, descriptors: seq<(Prop, Descriptor)>)
      requires |chain| > 0
      modifies this`heap, this`originalDescriptors
      ensures (heap, originalDescriptors) == ApplyAll(old(heap), old(originalDescriptors), chain, descriptors)
    {
      var i := 0;
      while i < |descriptors|
        invariant 0 <= i <= |descriptors|
        invariant (heap, originalDescriptors) == ApplyAll(old(heap), old(originalDescriptors), chain, descriptors[..i])
      {
        var (property, rawDescriptor) := descriptors[i];
        var owner := chain[FindPropertyOwner(chain, property, heap)];
        originalDescriptors := originalDescriptors + [PatchRecord(Own(heap, owner, property), owner, property, chain[0])];
        var descriptor := rawDescriptor;
        if descriptor.value.Some? {
          descriptor := descriptor.(writable := Some(false));
        }
        heap := heap[(owner, property) := descriptor];
        assert descriptors[..i + 1][..i] == descriptors[..i];
        i := i + 1;
      }
      assert descriptors[..i] == descriptors;
    }

    /** `findOriginalDescriptor(target, p)`. */
    method FindOriginalDescriptor(target: Obj, p: Prop) returns (r: Option<Option<Descriptor>>)
      ensures r == OriginalDescriptor(originalDescriptors, target, p)
    {
      var i := 0;
      while i < |originalDescriptors|
        invariant 0 <= i <= |originalDescriptors|
        invariant forall j :: 0 <= j < i ==> !Matches(originalDescriptors[j], target, p)
      {
        var record := originalDescriptors[i];
        if record.target == target && record.property == p {
          return Some(record.descriptor);
        }
        i := i + 1;
      }
      return None;
    }

    /**
     * `unpatchWindow()`: define every recorded descriptor back on its owner,
     * then empty the log; a recorded `undefined` throws, leaving the log as it was.
     */
    method UnpatchWindow() returns (threw: bool)
      modifies this`heap, this`originalDescriptors
      ensures heap == Replay(old(heap), old(originalDescriptors)).0
      ensures threw <==> !Replay(old(heap), old(originalDescriptors)).1
      ensures originalDescriptors == if threw then old(originalDescriptors) else []
    {
      var i := 0;
      while i < |originalDescriptors|
        invariant 0 <= i <= |originalDescriptors|
        invariant originalDescriptors == old(originalDescriptors)
        invariant Replay(old(heap), originalDescriptors[..i]) == (heap, true)
      {
        var record := originalDescriptors[i];
        assert originalDescriptors[..i + 1][..i] == originalDescriptors[..i];
        if record.descriptor.None? {
          ReplayStops(old(heap), originalDescriptors, i + 1);
          return true;
        }
        heap := heap[(record.owner, record.property) := record.descriptor.value];
        i := i + 1;
      }
      assert originalDescriptors[..i] == originalDescriptors;
      originalDescriptors := [];
      return false;
    }

    /** `getTitle()`. */
    method GetTitle() returns (r: Outcome)
      requires |documentChain| > 0
      ensures r == TitleOf(originalDescriptors, heap, documentChain, mockTitle, nativeTitle)
    {
      var titleDescriptor := FindOriginalDescriptor(documentChain[0], "title");
      if titleDescriptor.Some? && titleDescriptor.value.Some? {
        r := CallGetter(titleDescriptor.value.value.getter, mockTitle, nativeTitle);
      } else {
        r := ReadProperty(heap, documentChain, "title", mockTitle, nativeTitle);
      }
    }

    /** `setTitle(value)`. */
    method SetTitle(value: string) returns (threw: bool)
      requires |documentChain| > 0
      modifies this`heap, this`mockTitle, this`nativeTitle, this`effects
      ensures (TitleState(heap, mockTitle, nativeTitle, effects), threw)
        == SetTitleOf(originalDescriptors, TitleState(old(heap), old(mockTitle), old(nativeTitle), old(effects)), documentChain, value)
    {
      var titleDescriptor := FindOriginalDescriptor(documentChain[0], "title");
      threw := false;
      if titleDescriptor.Some? && titleDescriptor.value.Some? {
        var setter := titleDescriptor.value.value.setter;
        if setter.None? {
          threw := true;
        } else {
          InvokeSetter(setter.value, value);
        }
      } else {
        match PropertyWrite(heap, documentChain, "title", Text(value))
        case ViaSetter(setter) =>
          InvokeSetter(setter, value);
        case Rejected =>
          threw := true;
        case Define(key, d) =>
          heap := heap[key := d];
      }
    }

    /** Calling a title setter with `value`. */
    method InvokeSetter(setter: Setter, value: string)
      modifies this`mockTitle, this`nativeTitle, this`effects
      ensures TitleState(heap, mockTitle, nativeTitle, effects)
        == CallSetter(setter, value, TitleState(heap, old(mockTitle), old(nativeTitle), old(effects)))
    {
      match setter
      case MockTitleSetter =>
        mockTitle := value;
      case NativeTitleSetter =>
        nativeTitle := value;
      case ForeignSetter(name) =>
        effects := effects + [ForeignSet(name, value)];
    }

    /** `mockEventListeners(target)`. */
    method MockEventListeners(target: Obj)
      requires Valid()
      modifies this`mocked
      ensures Valid()
      ensures mocked == old(mocked) + {target}
    {
      mocked := mocked + {target};
    }

    /** `patchWindow()`: patch `window`, mock its listeners; the document waits for `OnDocumentReady`. */
    method PatchWindow()
      requires Valid()
      modifies this`heap, this`originalDescriptors, this`mocked
      ensures Valid()
      ensures (heap, originalDescriptors) == ApplyAll(old(heap), old(originalDescriptors), windowChain, WINDOW_MOCK_DESCRIPTORS)
      ensures mocked == old(mocked) + {windowChain[0]}
    {
      ApplyPropertyDescriptors(windowChain, WINDOW_MOCK_DESCRIPTORS);
      MockEventListeners(windowChain[0]);
    }

    /** The callback `patchWindow` hands to `whenReady`: patch `document`, mock the listeners of document, body and head. */
    method OnDocumentReady()
      requires Valid()
      modifies this`heap, this`originalDescriptors, this`mocked
      ensures Valid()
      ensures (heap, originalDescriptors) == ApplyAll(old(heap), old(originalDescriptors), documentChain, DOCUMENT_MOCK_DESCRIPTORS)
      ensures mocked == old(mocked) + {documentChain[0], body, head}
    {
      ApplyPropertyDescriptors(documentChain, DOCUMENT_MOCK_DESCRIPTORS);
      MockEventListeners(documentChain[0]);
      MockEventListeners(body);
      MockEventListeners(head);
    }

    /** `registerListener(listeners, eventType, cb)` on the registry object `registry`. */
    method RegisterListener(registry: RegistryId, eventType: EventType, cb: Callback)
      requires registry in registries
      modifies this`registries
      ensures registries == old(registries)[registry := Registered(old(registries[registry]), eventType, cb)]
    {
      var entries := registries[registry];
      var i := IndexOf(entries, eventType);
      if i == |entries| {
        entries := entries + [Entry(eventType, [cb])];
      } else if cb !in entries[i].callbacks {
        entries := entries[i := Entry(eventType, entries[i].callbacks + [cb])];
      }
      registries := registries[registry := entries];
    }

    /** `unregisterListener(listeners, eventType, cb)` on the registry object `registry`. */
    method UnregisterListener(registry: RegistryId, eventType: EventType, cb: Callback)
      requires registry in registries
      modifies this`registries
      ensures registries == old(registries)[registry := Unregistered(old(registries[registry]), eventType, cb)]
    {
      var entries := registries[registry];
      var i := IndexOf(entries, eventType);
      if i == |entries| {
        return;
      }
      entries := entries[i := Entry(eventType, Without(entries[i].callbacks, cb))];
      if entries[i].callbacks == [] {
        entries := entries[..i] + entries[i + 1..];
      }
      registries := registries[registry := entries];
    }

    /**
     * `target.addEventListener(eventType, callback, options)`. On a mocked
     * target a callback that is not an OWL synthetic listener is recorded in
     * the target's registry, if it has one, after wrapping it when `once` is
     * set; the browser's own `addEventListener` is always called, with the
     * callback as recorded.
     */
    method AddEventListener(target: Obj, eventType: EventType, callback: Callback, options: ListenerOptions)
      requires Valid()
      modifies this`registries, this`nextClosure, this`effects
      ensures Valid()
      ensures var recorded := target in mocked && target in listenerMap && !IsOwlSynthetic(callback);
        var added := if recorded && IsOnce(options) then Once(old(nextClosure), callback, listenerMap[target], eventType) else callback;
        && effects == old(effects) + [NativeAdd(target, eventType, added, options)]
        && registries == (if recorded then old(registries)[listenerMap[target] := Registered(old(registries[listenerMap[target]]), eventType, added)]
                          else old(registries))
        && nextClosure == old(nextClosure) + (if recorded && IsOnce(options) then 1 else 0)
    {
      var cb := callback;
      if target in mocked && target in listenerMap && !IsOwlSynthetic(callback) {
        var listeners := listenerMap[target];
        if IsOnce(options) {
          cb := Once(nextClosure, callback, listeners, eventType);
          nextClosure := nextClosure + 1;
        }
        RegisteredSpec(registries[listeners], eventType, cb);
        ConsistentRecord(listenerMap, watchOrder, registries, nextRegistry, mocked, target, Registered(registries[listeners], eventType, cb));
        RegisterListener(listeners, eventType, cb);
      }
      effects := effects + [NativeAdd(target, eventType, cb, options)];
    }

    /**
     * `target.removeEventListener(eventType, callback, options)`: on a mocked
     * target the callback leaves the target's registry, if it has one; the
     * browser's own `removeEventListener` is always called.
     */
    method RemoveEventListener(target: Obj, eventType: EventType, callback: Callback, options: ListenerOptions)
      requires Valid()
      modifies this`registries, this`effects
      ensures Valid()
      ensures effects == old(effects) + [NativeRemove(target, eventType, callback, options)]
      ensures registries == if target in mocked && target in listenerMap
        then old(registries)[listenerMap[target] := Unregistered(old(registries[listenerMap[target]]), eventType, callback)]
        else old(registries)
    {
      if target in mocked && target in listenerMap {
        var listeners := listenerMap[target];
        UnregisteredSpec(registries[listeners], eventType, callback);
        ConsistentRecord(listenerMap, watchOrder, registries, nextRegistry, mocked, target, Unregistered(registries[listeners], eventType, callback));
        UnregisterListener(listeners, eventType, callback);
      }
      effects := effects + [NativeRemove(target, eventType, callback, options)];
    }

    /**
     * The browser calling a `once` wrapper: it takes itself out of the registry
     * it closed over, which need not be the target's current one, then calls
     * the original callback.
     */
    method CallOnceWrapper(wrapper: Callback)
      requires Valid() && wrapper.Once? && wrapper.registry in registries
      modifies this`registries, this`effects
      ensures Valid()
      ensures registries == old(registries)[wrapper.registry := Unregistered(old(registries[wrapper.registry]), wrapper.eventType, wrapper)]
      ensures wrapper !in Lookup(registries[wrapper.registry], wrapper.eventType)
      ensures effects == old(effects) + [Invoke(wrapper.original)]
    {
      UnregisteredSpec(registries[wrapper.registry], wrapper.eventType, wrapper);
      ConsistentUpdate(listenerMap, watchOrder, registries, nextRegistry, mocked,
        wrapper.registry, Unregistered(registries[wrapper.registry], wrapper.eventType, wrapper));
      UnregisterListener(wrapper.registry, wrapper.eventType, wrapper);
      effects := effects + [Invoke(wrapper.original)];
    }

    /** The listener bookkeeping, as a value. */
    function Bookkeeping(): Watching
      reads this`listenerMap, this`watchOrder, this`registries, this`nextRegistry
    {
      Watching(listenerMap, watchOrder, registries, nextRegistry)
    }

    /** `watchListeners(...targets)`: a fresh, empty registry for each target, replacing any earlier one. */
    method WatchListeners(targets: seq<Obj>)
      requires Valid()
      modifies this`listenerMap, this`watchOrder, this`registries, this`nextRegistry
      ensures Valid()
      ensures Bookkeeping() == WatchAll(old(Bookkeeping()), targets)
    {
      var i := 0;
      while i < |targets|
        invariant 0 <= i <= |targets|
        invariant Valid()
        invariant Bookkeeping() == WatchAll(old(Bookkeeping()), targets[..i])
      {
        assert targets[..i + 1][..i] == targets[..i];
        Watch(targets[i]);
        i := i + 1;
      }
      assert targets[..i] == targets;
    }

    /** `listenerMap.set(target, {})`. */
    method Watch(target: Obj)
      requires Valid()
      modifies this`listenerMap, this`watchOrder, this`registries, this`nextRegistry
      ensures Valid()
      ensures Bookkeeping() == WatchOne(old(Bookkeeping()), target)
    {
      ConsistentWatch(listenerMap, watchOrder, registries, nextRegistry, mocked, target);
      var w := WatchOne(Bookkeeping(), target);
      listenerMap, watchOrder, registries, nextRegistry := w.listenerMap, w.watchOrder, w.registries, w.nextRegistry;
    }

    /** The `unwatchListeners` function `watchListeners` returns: forget every registry. */
    method UnwatchListeners()
      requires Valid()
      modifies this`listenerMap, this`watchOrder
      ensures Valid()
      ensures listenerMap == map[] && watchOrder == []
    {
      listenerMap := map[];
      watchOrder := [];
    }

    /** The listener part of `cleanupWindow` for one target: remove every recorded callback through the target. */
    method RemoveRecordedListeners(target: Obj)
      requires Valid() && target in listenerMap
      modifies this`registries, this`effects
      ensures Valid()
      ensures registries == old(registries)[listenerMap[target] := []]
      ensures effects == old(effects) + TableRemovals(target, old(registries[listenerMap[target]]))
    {
      var snapshot := registries[listenerMap[target]];
      var k := 0;
      while k < |snapshot|
        invariant 0 <= k <= |snapshot|
        invariant Valid() && WellFormed(snapshot) && (snapshot != [] ==> target in mocked)
        invariant registries == old(registries)[listenerMap[target] := snapshot[k..]]
        invariant effects == old(effects) + TableRemovals(target, snapshot[..k])
      {
        RemoveCallbacksOf(target, snapshot, k);
        UpdateTwice(old(registries), listenerMap[target], snapshot[k..], snapshot[k + 1..]);
        TableRemovalsSnoc(old(effects), target, snapshot, k);
        k := k + 1;
      }
      assert snapshot[..k] == snapshot;
    }

    /** The removals for one key of the snapshot `cleanupWindow` takes with `Object.entries`. */
    method RemoveCallbacksOf(target: Obj, snapshot: seq<Entry>, k: nat)
      requires Valid() && target in listenerMap && target in mocked
      requires WellFormed(snapshot) && k < |snapshot| && registries[listenerMap[target]] == snapshot[k..]
      modifies this`registries, this`effects
      ensures Valid()
      ensures registries == old(registries)[listenerMap[target] := snapshot[k + 1..]]
      ensures effects == old(effects) + CallbackRemovals(target, snapshot[k].eventType, snapshot[k].callbacks)
    {
      var callbacks := snapshot[k].callbacks;
      RemainingEnds(snapshot, k);
      var j := 0;
      while j < |callbacks|
        invariant 0 <= j <= |callbacks|
        invariant Valid()
        invariant registries == old(registries)[listenerMap[target] := Remaining(snapshot, k, j)]
        invariant effects == old(effects) + CallbackRemovals(target, snapshot[k].eventType, callbacks[..j])
      {
        assert callbacks[..j + 1][..j] == callbacks[..j];
        RemoveCallbackAt(target, old(registries), snapshot, k, j);
        AppendAssoc(old(effects), CallbackRemovals(target, snapshot[k].eventType, callbacks[..j]),
          [NativeRemove(target, snapshot[k].eventType, callbacks[j], NoOptions)]);
        j := j + 1;
      }
      assert callbacks[..j] == callbacks;
    }

    /** One removal of that loop: the callback at position `j` of key `k`. */
    method RemoveCallbackAt(target: Obj, ghost base: map<RegistryId, seq<Entry>>, snapshot: seq<Entry>, k: nat, j: nat)
      requires Valid() && target in listenerMap && target in mocked
      requires WellFormed(snapshot) && k < |snapshot| && j < |snapshot[k].callbacks|
      requires registries == base[listenerMap[target] := Remaining(snapshot, k, j)]
      modifies this`registries, this`effects
      ensures Valid()
      ensures registries == base[listenerMap[target] := Remaining(snapshot, k, j + 1)]
      ensures effects == old(effects) + [NativeRemove(target, snapshot[k].eventType, snapshot[k].callbacks[j], NoOptions)]
    {
      RemainingStep(snapshot, k, j);
      RemoveEventListener(target, snapshot[k].eventType, snapshot[k].callbacks[j], NoOptions);
      UpdateTwice(base, listenerMap[target], Remaining(snapshot, k, j), Remaining(snapshot, k, j + 1));
    }

    /**
     * `cleanupWindow(isInDOM)`: clear the other mocks, reset the mocked title,
     * then remove every recorded callback of every watched target in the DOM.
     */
    method CleanupWindow(inDom: set<Obj>)
      requires Valid()
      modifies this`registries, this`effects, this`mockTitle
      ensures Valid()
      ensures mockTitle == ""
      ensures effects == old(effects) + CLEAR_EFFECTS + Removals(watchOrder, old(Snapshot()), inDom)
      ensures Snapshot() == Cleaned(old(Snapshot()), watchOrder, inDom)
      ensures registries.Keys == old(registries).Keys
      ensures forall id :: id in old(registries) && id !in listenerMap.Values ==> registries[id] == old(registries)[id]
    {
      ghost var snapshot := Snapshot();
      // The cookie, history, location and storage mocks are cleared first.
      effects := effects + CLEAR_EFFECTS;
      mockTitle := "";
      ghost var cleared := effects;
      var order := watchOrder;
      assert order[..0] == [];
      CleanedNone(snapshot, inDom);
      assert cleared + [] == cleared;
      var i := 0;
      while i < |order|
        invariant 0 <= i <= |order|
        invariant Valid()
        invariant Snapshot() == Cleaned(snapshot, order[..i], inDom)
        invariant effects == cleared + Removals(order[..i], snapshot, inDom)
        invariant mockTitle == ""
        invariant UnreachedKept(listenerMap, old(registries), registries)
      {
        ghost var before := registries;
        CleanupTarget(snapshot, order, inDom, i, cleared);
        UnreachedKeptStep(listenerMap, old(registries), before, registries, order[i], inDom);
        i := i + 1;
      }
      assert order[..i] == order;
    }

    /** One iteration of the listener loop of `cleanupWindow`: the target at position `i` of the watch order. */
    method CleanupTarget(ghost snapshot: map<Obj, seq<Entry>>, order: seq<Obj>, inDom: set<Obj>, i: nat, ghost cleared: seq<Effect>)
      requires Valid() && order == watchOrder && i < |order|
      requires Snapshot() == Cleaned(snapshot, order[..i], inDom)
      requires effects == cleared + Removals(order[..i], snapshot, inDom)
      modifies this`registries, this`effects
      ensures Valid()
      ensures Snapshot() == Cleaned(snapshot, order[..i + 1], inDom)
      ensures effects == cleared + Removals(order[..i + 1], snapshot, inDom)
      ensures registries == if order[i] in inDom then old(registries)[listenerMap[order[i]] := []] else old(registries)
    {
      var target := order[i];
      CleanedStep(listenerMap, registries, snapshot, order, inDom, i, cleared, effects);
      if target in inDom {
        RemoveRecordedListeners(target);
      }
    }
  }
}
