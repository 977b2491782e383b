/**
 * The cache footprint estimator: a graph walk that charges bytes for the
 * objects reachable from the cached values, and two tables of samples (in
 * memory, on disk) from which the size of a cache is extrapolated linearly
 * in its number of elements.
 *
 * Java reflection is replaced by an explicit object graph: a heap maps
 * object identities to what the walk can see of each object, a record's
 * fields are listed class by class up its superclass chain, and a field whose
 * read throws (IllegalAccessException, InaccessibleObjectException) is
 * `Denied`. An Ehcache is reduced to what the estimator asks of it.
 */
module SizeEstimation {

  // ---------------------------------------------------------------------------
  // Java long arithmetic
  // ---------------------------------------------------------------------------

  const LONG_MODULUS: int := 0x1_0000_0000_0000_0000
  const LONG_MIN: int := -0x8000_0000_0000_0000
  const LONG_MAX: int := 0x7fff_ffff_ffff_ffff

  predicate InLongRange(x: int)
  {
    LONG_MIN <= x <= LONG_MAX
  }

  /** The two's-complement wrap-around of a 64-bit `long` operation. */
  function WrapLong(x: int): (r: int)
    ensures InLongRange(r)
    ensures InLongRange(x) ==> r == x
    ensures (r - x) % LONG_MODULUS == 0
  {
    (x - LONG_MIN) % LONG_MODULUS + LONG_MIN
  }

  const INT_MODULUS: int := 0x1_0000_0000
  const INT_MIN: int := -0x8000_0000

  /** The two's-complement wrap-around of a 32-bit `int` operation. */
  function WrapInt(x: int): (r: int)
    ensures INT_MIN <= r < -INT_MIN
    ensures INT_MIN <= x < -INT_MIN ==> r == x
    ensures (r - x) % INT_MODULUS == 0
  {
    (x - INT_MIN) % INT_MODULUS + INT_MIN
  }

  function Abs(x: int): nat
  {
    if x < 0 then -x else x
  }

  /** Java's integer division: the quotient truncated toward zero. */
  function JavaDiv(a: int, b: int): int
    requires b != 0
  {
    if (a >= 0) == (b > 0) then Abs(a) / Abs(b) else -(Abs(a) / Abs(b))
  }

  // ---------------------------------------------------------------------------
  // Samples
  // ---------------------------------------------------------------------------

  /** A byte size measured for a given number of elements. */
  datatype Sample = Sample(elements: int, bytesize: int)

  /**
   * `Sample.estimate`: the measured size at the sampled count, 0 for a sample
   * of no elements, and otherwise `bytesize * n / elements` in `long`
   * arithmetic (the product wraps around, the quotient truncates).
   */
  function Estimate(s: Sample, n: int): (r: int)
  {
    if s.elements == n then s.bytesize
    else if s.elements == 0 then 0
    else JavaDiv(WrapLong(s.bytesize * n), s.elements)
  }

  /** The sampled count gives back the measured size; an empty sample extrapolates to nothing. */
  lemma EstimateAnchors(s: Sample, n: int)
    ensures Estimate(s, s.elements) == s.bytesize
    ensures s.elements == 0 && n != 0 ==> Estimate(s, n) == 0
  {
  }

  /**
   * While `bytesize * n` fits in a `long`, the estimate is the linear
   * extrapolation rounded down: the largest r with r * elements <= bytesize * n.
   */
  lemma EstimateIsProportional(s: Sample, n: int)
    requires 0 < s.elements && 0 <= s.bytesize && 0 <= n
    requires s.bytesize * n <= LONG_MAX
    ensures 0 <= Estimate(s, n)
    ensures Estimate(s, n) * s.elements <= s.bytesize * n < Estimate(s, n) * s.elements + s.elements
  {
    var p := s.bytesize * n;
    MultiplyMonotone(s.bytesize, 0, n);
    if s.elements == n {
      assert p == s.bytesize * s.elements;
    } else {
      assert Estimate(s, n) == p / s.elements;
      DivisionBounds(p, s.elements);
    }
  }

  /** Floor division brackets its dividend. */
  lemma DivisionBounds(p: nat, c: int)
    requires 0 < c
    ensures (p / c) * c <= p < (p / c) * c + c
  {
    assert p == (p / c) * c + p % c;
  }

  /** Without overflow, a larger cache never gets a smaller estimate. */
  lemma EstimateMonotone(s: Sample, n1: int, n2: int)
    requires 0 < s.elements && 0 <= s.bytesize && 0 <= n1 <= n2
    requires s.bytesize * n2 <= LONG_MAX
    ensures Estimate(s, n1) <= Estimate(s, n2)
  {
    MultiplyMonotone(s.bytesize, n1, n2);
    EstimateIsProportional(s, n1);
    EstimateIsProportional(s, n2);
    MultiplyStep(s.elements, Estimate(s, n2), Estimate(s, n1));
  }

  lemma MultiplyMonotone(a: nat, x: int, y: int)
    requires x <= y
    ensures a * x <= a * y
  {
    assert a * y - a * x == a * (y - x);
  }

  /** Between multiples of c, a smaller factor is at least c smaller. */
  lemma MultiplyStep(c: nat, x: int, y: int)
    ensures x < y ==> x * c + c <= y * c
  {
    if x < y {
      assert y * c - x * c == (y - x) * c;
      MultiplyMonotone(c, 1, y - x);
    }
  }

  /** A multiple of the sampled count scales the measured size by the same factor. */
  lemma EstimateScales(s: Sample, k: nat)
    requires 0 < s.elements && 0 <= s.bytesize
    requires s.bytesize * (k * s.elements) <= LONG_MAX
    ensures Estimate(s, k * s.elements) == k * s.bytesize
  {
    var n := k * s.elements;
    var target := k * s.bytesize;
    Regroup(s.bytesize, k, s.elements);
    EstimateIsProportional(s, n);
    var r := Estimate(s, n);
    MultiplyStep(s.elements, r, target);
    MultiplyStep(s.elements, target, r);
  }

  lemma Regroup(b: int, k: int, c: int)
    ensures b * (k * c) == (k * b) * c
  {
  }

  /**
   * The overflow the source flags: a 2^62-byte sample of 3 elements,
   * extrapolated to 2 elements, wraps to a negative size.
   */
  lemma EstimateOverflows()
    ensures Estimate(Sample(3, 0x4000_0000_0000_0000), 2) == -3074457345618258602
  {
    assert WrapLong(0x4000_0000_0000_0000 * 2) == LONG_MIN;
  }

  /** `estimate(samples, name, n)`: -1 when no sample is stored under `name`. */
  function EstimateFrom(samples: map<string, Sample>, name: string, n: int): (r: int)
    ensures name !in samples ==> r == -1
    ensures name in samples && samples[name].elements == n ==> r == samples[name].bytesize
  {
    if name in samples then Estimate(samples[name], n) else -1
  }

  // ---------------------------------------------------------------------------
  // The object graph and the walk over it
  // ---------------------------------------------------------------------------

  /** A reference: null, or the identity of an object of the heap. */
  datatype Value = Null | Ref(id: nat)

  datatype PrimitiveType =
    | BooleanType | ByteType | CharType | ShortType | IntType | FloatType | LongType | DoubleType | VoidType

  /** What reading a field through reflection gives. */
  datatype FieldRead = Readable(value: Value) | Denied

  datatype Field = Field(isStatic: bool, isTransient: bool, read: FieldRead)

  /** What the walk distinguishes about an object, in the order it tests for it. */
  datatype Obj =
    | Primitive(primitive: PrimitiveType)
    | Str(length: nat)
    | Collection(items: seq<Value>)        // in iteration order
    | MapObj(entries: seq<(Value, Value)>)  // entry set in iteration order
    | ArrayObj(cells: seq<Value>)
    | Record(chain: seq<seq<Field>>)       // declared fields, class by class up to Object

  /** Object identities to objects (IdentityHashMap keys are these identities). */
  type Heap = map<nat, Obj>

  /** The walk's depth limit. */
  const MAX_DEPTH: int := 20

  /** The bytes charged for a field whose value cannot be read. */
  const INACCESSIBLE_FIELD_SIZE: nat := 50

  /** `getSizeOfPrimitiveType`: the width in bytes, 0 for void. */
  function SizeOfPrimitive(t: PrimitiveType): (r: nat)
    ensures r == 0 <==> t == VoidType
    ensures r in {0, 1, 2, 4, 8}
    ensures t in {LongType, DoubleType} <==> r == 8
  {
    match t
    case BooleanType => 1
    case ByteType => 1
    case CharType => 2
    case ShortType => 2
    case IntType => 4
    case FloatType => 4
    case LongType => 8
    case DoubleType => 8
    case VoidType => 0
  }

  /** How many more levels the walk may descend from `depth`. */
  function Budget(depth: int): nat
  {
    if depth > MAX_DEPTH + 1 then 0 else MAX_DEPTH + 1 - depth
  }

  /** A size added in front of a walk result. */
  function Add(k: nat, p: (nat, set<nat>)): (nat, set<nat>)
  {
    (k + p.0, p.1)
  }

  /**
   * `estimateSizeOfCache`: the bytes charged for `v` and what it reaches,
   * and the visited set afterwards. A reference outside the heap map cannot
   * arise in Java; it is charged like null.
   */
  function Walk(heap: Heap, v: Value, visited: set<nat>, depth: int): (r: (nat, set<nat>))
    decreases Budget(depth), 0, 0
  {
    if v.Null? || v.id !in heap || v.id in visited || depth > MAX_DEPTH then (0, visited)
    else
      var marked := visited + {v.id};
      match heap[v.id]
      case Primitive(t) => (SizeOfPrimitive(t), marked)
      case Str(length) => (2 * length, marked)
      case Collection(items) => WalkItems(heap, items, marked, depth + 1)
      case MapObj(entries) => WalkEntries(heap, entries, marked, depth + 1)
      case ArrayObj(cells) => WalkItems(heap, cells, marked, depth + 1)
      case Record(chain) => WalkChain(heap, chain, marked, depth + 1)
  }

  /** The elements of a collection or array, in order, each at `depth`. */
  function WalkItems(heap: Heap, items: seq<Value>, visited: set<nat>, depth: int): (nat, set<nat>)
    decreases Budget(depth), 1, |items|
  {
    if items == [] then (0, visited)
    else
      var first := Walk(heap, items[0], visited, depth);
      Add(first.0, WalkItems(heap, items[1..], first.1, depth))
  }

  /** The entries of a map, key before value, each at `depth`. */
  function WalkEntries(heap: Heap, entries: seq<(Value, Value)>, visited: set<nat>, depth: int): (nat, set<nat>)
    decreases Budget(depth), 1, |entries|
  {
    if entries == [] then (0, visited)
    else
      var key := Walk(heap, entries[0].0, visited, depth);
      var value := Walk(heap, entries[0].1, key.1, depth);
      Add(key.0 + value.0, WalkEntries(heap, entries[1..], value.1, depth))
  }

  /** The fields one class declares: static and transient ones skipped, unreadable ones charged 50. */
  function WalkFields(heap: Heap, fields: seq<Field>, visited: set<nat>, depth: int): (nat, set<nat>)
    decreases Budget(depth), 1, |fields|
  {
    if fields == [] then (0, visited)
    else
      var f := fields[0];
      if f.isStatic || f.isTransient then WalkFields(heap, fields[1..], visited, depth)
      else if f.read.Denied? then Add(INACCESSIBLE_FIELD_SIZE, WalkFields(heap, fields[1..], visited, depth))
      else
        var first := Walk(heap, f.read.value, visited, depth);
        Add(first.0, WalkFields(heap, fields[1..], first.1, depth))
  }

  /** A record's classes, from its own up the superclass chain. */
  function WalkChain(heap: Heap, chain: seq<seq<Field>>, visited: set<nat>, depth: int): (nat, set<nat>)
    decreases Budget(depth), 2, |chain|
  {
    if chain == [] then (0, visited)
    else
      var first := WalkFields(heap, chain[0], visited, depth);
      Add(first.0, WalkChain(heap, chain[1..], first.1, depth))
  }

  /** `calculateInMemorySize`: every cached value at depth 1, sharing one visited set. */
  function InMemorySize(heap: Heap, values: seq<Value>): nat
  {
    WalkItems(heap, values, {}, 1).0
  }

  // ---------------------------------------------------------------------------
  // What the walk guarantees
  // ---------------------------------------------------------------------------

  /** The walk only adds to the visited set, and only identities of the heap. */
  lemma {:induction false} WalkGrowsVisited(heap: Heap, v: Value, visited: set<nat>, depth: int)
    ensures visited <= Walk(heap, v, visited, depth).1 <= visited + heap.Keys
    decreases Budget(depth), 0, 0
  {
    if v.Null? || v.id !in heap || v.id in visited || depth > MAX_DEPTH {
    } else {
      var marked := visited + {v.id};
      match heap[v.id]
      case Primitive(_) =>
      case Str(_) =>
      case Collection(items) => ItemsGrowVisited(heap, items, marked, depth + 1);
      case MapObj(entries) => EntriesGrowVisited(heap, entries, marked, depth + 1);
      case ArrayObj(cells) => ItemsGrowVisited(heap, cells, marked, depth + 1);
      case Record(chain) => ChainGrowsVisited(heap, chain, marked, depth + 1);
    }
  }

  lemma {:induction false} ItemsGrowVisited(heap: Heap, items: seq<Value>, visited: set<nat>, depth: int)
    ensures visited <= WalkItems(heap, items, visited, depth).1 <= visited + heap.Keys
    decreases Budget(depth), 1, |items|
  {
    if items != [] {
      WalkGrowsVisited(heap, items[0], visited, depth);
      var first := Walk(heap, items[0], visited, depth);
      ItemsGrowVisited(heap, items[1..], first.1, depth);
    }
  }

  lemma {:induction false} EntriesGrowVisited(heap: Heap, entries: seq<(Value, Value)>, visited: set<nat>, depth: int)
    ensures visited <= WalkEntries(heap, entries, visited, depth).1 <= visited + heap.Keys
    decreases Budget(depth), 1, |entries|
  {
    if entries != [] {
      WalkGrowsVisited(heap, entries[0].0, visited, depth);
      var key := Walk(heap, entries[0].0, visited, depth);
      WalkGrowsVisited(heap, entries[0].1, key.1, depth);
      var value := Walk(heap, entries[0].1, key.1, depth);
      EntriesGrowVisited(heap, entries[1..], value.1, depth);
    }
  }

  lemma {:induction false} FieldsGrowVisited(heap: Heap, fields: seq<Field>, visited: set<nat>, depth: int)
    ensures visited <= WalkFields(heap, fields, visited, depth).1 <= visited + heap.Keys
    decreases Budget(depth), 1, |fields|
  {
    if fields != [] {
      var f := fields[0];
      if f.isStatic || f.isTransient || f.read.Denied? {
        FieldsGrowVisited(heap, fields[1..], visited, depth);
      } else {
        WalkGrowsVisited(heap, f.read.value, visited, depth);
        var first := Walk(heap, f.read.value, visited, depth);
        FieldsGrowVisited(heap, fields[1..], first.1, depth);
      }
    }
  }

  lemma {:induction false} ChainGrowsVisited(heap: Heap, chain: seq<seq<Field>>, visited: set<nat>, depth: int)
    ensures visited <= WalkChain(heap, chain, visited, depth).1 <= visited + heap.Keys
    decreases Budget(depth), 2, |chain|
  {
    if chain != [] {
      FieldsGrowVisited(heap, chain[0], visited, depth);
      var first := WalkFields(heap, chain[0], visited, depth);
      ChainGrowsVisited(heap, chain[1..], first.1, depth);
    }
  }

  /** An object the walk reaches within the depth limit is marked, so it is never charged twice. */
  lemma WalkMarks(heap: Heap, v: Value, visited: set<nat>, depth: int)
    requires v.Ref? && v.id in heap && depth <= MAX_DEPTH
    ensures v.id in Walk(heap, v, visited, depth).1
    ensures Walk(heap, v, Walk(heap, v, visited, depth).1, depth) == (0, Walk(heap, v, visited, depth).1)
  {
    if v.id !in visited {
      var marked := visited + {v.id};
      match heap[v.id]
      case Primitive(_) =>
      case Str(_) =>
      case Collection(items) => ItemsGrowVisited(heap, items, marked, depth + 1);
      case MapObj(entries) => EntriesGrowVisited(heap, entries, marked, depth + 1);
      case ArrayObj(cells) => ItemsGrowVisited(heap, cells, marked, depth + 1);
      case Record(chain) => ChainGrowsVisited(heap, chain, marked, depth + 1);
    }
  }

  /** A value cached twice is charged once: the visited set is shared across the values. */
  lemma SharedValueChargedOnce(heap: Heap, v: Value)
    requires v.Ref? && v.id in heap
    ensures InMemorySize(heap, [v, v]) == InMemorySize(heap, [v])
  {
    var first := Walk(heap, v, {}, 1);
    WalkMarks(heap, v, {}, 1);
    assert [v, v][1..] == [v];
    assert [v][1..] == [];
    assert WalkItems(heap, [v], first.1, 1) == Add(0, WalkItems(heap, [], first.1, 1));
  }

  /** A collection that contains itself is walked once: the cycle adds nothing. */
  lemma SelfContainingCollection(id: nat, visited: set<nat>, depth: int)
    requires id !in visited && depth <= MAX_DEPTH
    ensures Walk(map[id := Collection([Ref(id)])], Ref(id), visited, depth) == (0, visited + {id})
  {
    var heap := map[id := Collection([Ref(id)])];
    var marked := visited + {id};
    assert [Ref(id)][1..] == [];
    assert WalkItems(heap, [Ref(id)], marked, depth + 1) == Add(0, WalkItems(heap, [], marked, depth + 1));
  }

  /** A string not yet visited is charged two bytes per character. */
  lemma StringCharge(heap: Heap, id: nat, visited: set<nat>, depth: int)
    requires id in heap && heap[id].Str? && id !in visited && depth <= MAX_DEPTH
    ensures Walk(heap, Ref(id), visited, depth) == (2 * heap[id].length, visited + {id})
  {
  }

  /**
   * Java computes a string's charge as the `int` product `length() * 2`: it
   * equals the model's charge below 2^30 characters, and from 2^30 on it
   * wraps, first to -2^31.
   */
  lemma StringChargeAsInt(length: nat)
    ensures length < 0x4000_0000 <==> WrapInt(length * 2) == 2 * length
    ensures length == 0x4000_0000 ==> WrapInt(length * 2) == INT_MIN
  {
    if length >= 0x4000_0000 {
      assert WrapInt(length * 2) < -INT_MIN <= 2 * length;
    }
  }

  /** Beyond the depth limit nothing is charged and nothing is marked. */
  lemma DepthLimit(heap: Heap, v: Value, visited: set<nat>, depth: int)
    requires depth > MAX_DEPTH
    ensures Walk(heap, v, visited, depth) == (0, visited)
  {
  }

  /** Static and transient fields add nothing and mark nothing. */
  lemma {:induction false} SkippedFieldsIgnored(heap: Heap, fields: seq<Field>, visited: set<nat>, depth: int)
    requires forall k :: 0 <= k < |fields| ==> fields[k].isStatic || fields[k].isTransient
    ensures WalkFields(heap, fields, visited, depth) == (0, visited)
    decreases |fields|
  {
    if fields != [] {
      SkippedFieldsIgnored(heap, fields[1..], visited, depth);
    }
  }

  /** Every instance field that cannot be read is charged 50 bytes instead of failing the walk. */
  lemma {:induction false} DeniedFieldsCharged(heap: Heap, fields: seq<Field>, visited: set<nat>, depth: int)
    requires forall k :: 0 <= k < |fields| ==> !fields[k].isStatic && !fields[k].isTransient && fields[k].read.Denied?
    ensures WalkFields(heap, fields, visited, depth) == (INACCESSIBLE_FIELD_SIZE * |fields|, visited)
    decreases |fields|
  {
    if fields != [] {
      DeniedFieldsCharged(heap, fields[1..], visited, depth);
    }
  }

  /** All the fields of a class chain, most derived class first. */
  function Flatten(chain: seq<seq<Field>>): (r: seq<Field>)
    ensures |chain| == 0 ==> r == []
  {
    if chain == [] then [] else chain[0] + Flatten(chain[1..])
  }

  /** Walking the fields of two runs one after the other is walking their concatenation. */
  lemma {:induction false} FieldsAppend(heap: Heap, a: seq<Field>, b: seq<Field>, visited: set<nat>, depth: int)
    ensures WalkFields(heap, a + b, visited, depth)
         == Add(WalkFields(heap, a, visited, depth).0, WalkFields(heap, b, WalkFields(heap, a, visited, depth).1, depth))
    decreases |a|
  {
    if a == [] {
      assert a + b == b;
    } else {
      assert (a + b)[1..] == a[1..] + b;
      assert (a + b)[0] == a[0];
      var f := a[0];
      if f.isStatic || f.isTransient || f.read.Denied? {
        FieldsAppend(heap, a[1..], b, visited, depth);
      } else {
        var first := Walk(heap, f.read.value, visited, depth);
        FieldsAppend(heap, a[1..], b, first.1, depth);
      }
    }
  }

  /** Going up the superclass chain class by class visits the same fields, in the same order, as one flat list. */
  lemma {:induction false} ChainIsFlatFields(heap: Heap, chain: seq<seq<Field>>, visited: set<nat>, depth: int)
    ensures WalkChain(heap, chain, visited, depth) == WalkFields(heap, Flatten(chain), visited, depth)
    decreases |chain|
  {
    if chain != [] {
      var first := WalkFields(heap, chain[0], visited, depth);
      ChainIsFlatFields(heap, chain[1..], first.1, depth);
      FieldsAppend(heap, chain[0], Flatten(chain[1..]), visited, depth);
    }
  }

  // ---------------------------------------------------------------------------
  // The sample tables
  // ---------------------------------------------------------------------------

  /**
   * What the estimator asks of a cache: its name, `getSize()`, the values
   * found for `getKeys()` in order (a key whose element has gone is `Null`:
   * both are skipped alike), and `calculateOnDiskSize()`.
   */
  datatype Cache = Cache(name: string, size: nat, values: seq<Value>, onDiskSize: int)

  /**
   * The in-memory resampling rule: no sample yet, the cache grew past 1.5
   * times the sampled count, or the previous sample measured zero bytes.
   */
  predicate NeedsInMemorySample(samples: map<string, Sample>, cache: Cache)
  {
    cache.name !in samples
    || 3 * samples[cache.name].elements < 2 * cache.size
    || samples[cache.name].bytesize == 0
  }

  /** The on-disk resampling rule: no sample yet, or the cache more than doubled. */
  predicate NeedsOnDiskSample(samples: map<string, Sample>, cache: Cache)
  {
    cache.name !in samples || samples[cache.name].elements * 2 < cache.size
  }

  /**
   * The table after a check and whether a new sample was taken: when the
   * rule fires, (size, measured) is stored, or (0, 0) for an empty cache
   * without measuring; the answer is true only for a non-empty cache.
   */
  function Resample(samples: map<string, Sample>, cache: Cache, needed: bool, measured: int): (r: (map<string, Sample>, bool))
    ensures r.1 <==> needed && cache.size > 0
    ensures !needed ==> r.0 == samples
    ensures needed ==> cache.name in r.0 && r.0[cache.name].elements == cache.size
    ensures needed ==> r.0[cache.name].bytesize == (if cache.size > 0 then measured else 0)
    ensures forall n :: n != cache.name ==> (n in r.0 <==> n in samples) && (n in samples ==> r.0[n] == samples[n])
  {
    if needed then
      (samples[cache.name := Sample(cache.size, if cache.size > 0 then measured else 0)], cache.size > 0)
    else (samples, false)
  }

  /** An empty cache is sampled as (0, 0) and the measurement is never consulted. */
  lemma EmptyCacheSample(samples: map<string, Sample>, cache: Cache, needed: bool, m1: int, m2: int)
    requires needed && cache.size == 0
    ensures Resample(samples, cache, needed, m1) == Resample(samples, cache, needed, m2)
    ensures Resample(samples, cache, needed, m1).0[cache.name] == Sample(0, 0)
  {
  }

  /** After a non-empty in-memory sample of a non-zero size, the same cache is not resampled again. */
  lemma InMemoryCheckSettles(samples: map<string, Sample>, cache: Cache, measured: int)
    requires NeedsInMemorySample(samples, cache) && cache.size > 0 && measured != 0
    ensures !NeedsInMemorySample(Resample(samples, cache, true, measured).0, cache)
  {
  }

  /** A zero-byte in-memory sample is retried at every check; on disk there is no such retry. */
  lemma ZeroByteSampleRetried(samples: map<string, Sample>, cache: Cache)
    requires cache.name in samples && samples[cache.name].bytesize == 0
    requires 2 * cache.size <= 3 * samples[cache.name].elements
    ensures NeedsInMemorySample(samples, cache)
    ensures !NeedsOnDiskSample(samples, cache)
  {
  }

  /** After any on-disk check the same cache is not resampled again, whatever was measured. */
  lemma OnDiskCheckSettles(samples: map<string, Sample>, cache: Cache, measured: int)
    requires NeedsOnDiskSample(samples, cache)
    ensures !NeedsOnDiskSample(Resample(samples, cache, true, measured).0, cache)
  {
  }

  /** A fresh identity set, standing for the `IdentityHashMap` of visited objects. */
  class IdentityVisited {
    var ids: set<nat>

    constructor ()
      ensures ids == {}
    {
      ids := {};
    }
  }

  class SizeEstimator {
    var inMemorySamples: map<string, Sample>
    var onDiskSamples: map<string, Sample>

    /** The singleton starts with both tables empty. */
    constructor ()
      ensures inMemorySamples == map[] && onDiskSamples == map[]
    {
      inMemorySamples := map[];
      onDiskSamples := map[];
    }

    /** `checkInMemorySample`: resamples the in-memory table when its rule fires. */
    method CheckInMemorySample(cache: Cache, heap: Heap) returns (resampled: bool)
      modifies this
      ensures (inMemorySamples, resampled)
           == Resample(old(inMemorySamples), cache, NeedsInMemorySample(old(inMemorySamples), cache), InMemorySize(heap, cache.values))
      ensures onDiskSamples == old(onDiskSamples)
    {
      var needed := NeedsInMemorySample(inMemorySamples, cache);
      if needed {
        var bytesize := 0;
        if cache.size > 0 {
          bytesize := CalculateInMemorySize(cache, heap);
        }
        inMemorySamples := inMemorySamples[cache.name := Sample(cache.size, bytesize)];
        return cache.size > 0;
      }
      return false;
    }

    /** `calculateInMemorySize`: walks every cached value from depth 1 with one shared visited set. */
    method CalculateInMemorySize(cache: Cache, heap: Heap) returns (size: nat)
      ensures size == InMemorySize(heap, cache.values)
    {
      var visited := new IdentityVisited();
      size := EstimateItems(heap, cache.values, visited, 1);
    }

    /** `checkOnDiskSample`: resamples the on-disk table when its rule fires. */
    method CheckOnDiskSample(cache: Cache) returns (resampled: bool)
      modifies this
      ensures (onDiskSamples, resampled)
           == Resample(old(onDiskSamples), cache, NeedsOnDiskSample(old(onDiskSamples), cache), cache.onDiskSize)
      ensures inMemorySamples == old(inMemorySamples)
    {
      var needed := NeedsOnDiskSample(onDiskSamples, cache);
      if needed {
        var bytesize := if cache.size > 0 then cache.onDiskSize else 0;
        onDiskSamples := onDiskSamples[cache.name := Sample(cache.size, bytesize)];
        return cache.size > 0;
      }
      return false;
    }

    /** `getInMemorySize`: checks the sample, then estimates from it; never -1 afterwards. */
    method GetInMemorySize(cache: Cache, heap: Heap) returns (size: int)
      modifies this
      ensures cache.name in inMemorySamples
      ensures size == Estimate(inMemorySamples[cache.name], cache.size)
      ensures NeedsInMemorySample(old(inMemorySamples), cache) ==>
        size == (if cache.size > 0 then InMemorySize(heap, cache.values) else 0)
      ensures !NeedsInMemorySample(old(inMemorySamples), cache) ==> inMemorySamples == old(inMemorySamples)
      ensures onDiskSamples == old(onDiskSamples)
    {
      var _ := CheckInMemorySample(cache, heap);
      size := EstimateInMemorySize(cache.name, cache.size);
    }

    /** `getOnDiskSize`: checks the sample, then estimates from it; never -1 afterwards. */
    method GetOnDiskSize(cache: Cache) returns (size: int)
      modifies this
      ensures cache.name in onDiskSamples
      ensures size == Estimate(onDiskSamples[cache.name], cache.size)
      ensures NeedsOnDiskSample(old(onDiskSamples), cache) ==>
        size == (if cache.size > 0 then cache.onDiskSize else 0)
      ensures !NeedsOnDiskSample(old(onDiskSamples), cache) ==> onDiskSamples == old(onDiskSamples)
      ensures inMemorySamples == old(inMemorySamples)
    {
      var _ := CheckOnDiskSample(cache);
      size := EstimateOnDiskSize(cache.name, cache.size);
    }

    /** `estimateInMemorySize`. */
    function EstimateInMemorySize(name: string, n: int): (r: int)
      reads this
      ensures name !in inMemorySamples ==> r == -1
      ensures name in inMemorySamples ==> r == Estimate(inMemorySamples[name], n)
    {
      EstimateFrom(inMemorySamples, name, n)
    }

    /** `estimateOnDiskSize`. */
    function EstimateOnDiskSize(name: string, n: int): (r: int)
      reads this
      ensures name !in onDiskSamples ==> r == -1
      ensures name in onDiskSamples ==> r == Estimate(onDiskSamples[name], n)
    {
      EstimateFrom(onDiskSamples, name, n)
    }
  }

  // ---------------------------------------------------------------------------
  // The walk, step by step
  // ---------------------------------------------------------------------------

  /**
   * `estimateSizeOfCache`: marks the object visited, then charges it by
   * kind, descending one level for what it holds.
   */
  method EstimateSizeOfCache(heap: Heap, v: Value, visited: IdentityVisited, depth: int) returns (size: nat)
    modifies visited
    ensures (size, visited.ids) == Walk(heap, v, old(visited.ids), depth)
    decreases Budget(depth), 0
  {
    if v.Null? || v.id !in heap || v.id in visited.ids || depth > MAX_DEPTH {
      return 0;
    }
    visited.ids := visited.ids + {v.id};
    match heap[v.id]
    case Primitive(t) =>
      size := SizeOfPrimitive(t);
    case Str(length) =>
      size := 2 * length;
    case Collection(items) =>
      size := EstimateItems(heap, items, visited, depth + 1);
    case MapObj(entries) =>
      size := EstimateEntries(heap, entries, visited, depth + 1);
    case ArrayObj(cells) =>
      size := EstimateItems(heap, cells, visited, depth + 1);
    case Record(chain) =>
      size := EstimateChain(heap, chain, visited, depth + 1);
  }

  /** The loop over a collection's iterator, or over an array's indices. */
  method EstimateItems(heap: Heap, items: seq<Value>, visited: IdentityVisited, depth: int) returns (size: nat)
    modifies visited
    ensures (size, visited.ids) == WalkItems(heap, items, old(visited.ids), depth)
    decreases Budget(depth), 1
  {
    size := 0;
    var i := 0;
    assert items[0..] == items;
    while i < |items|
      invariant 0 <= i <= |items|
      invariant Add(size, WalkItems(heap, items[i..], visited.ids, depth)) == WalkItems(heap, items, old(visited.ids), depth)
    {
      assert items[i..][1..] == items[i + 1..];
      var s := EstimateSizeOfCache(heap, items[i], visited, depth);
      size := size + s;
      i := i + 1;
    }
  }

  /** The loop over a map's entry set: key, then value. */
  method EstimateEntries(heap: Heap, entries: seq<(Value, Value)>, visited: IdentityVisited, depth: int) returns (size: nat)
    modifies visited
    ensures (size, visited.ids) == WalkEntries(heap, entries, old(visited.ids), depth)
    decreases Budget(depth), 1
  {
    size := 0;
    var i := 0;
    assert entries[0..] == entries;
    while i < |entries|
      invariant 0 <= i <= |entries|
      invariant Add(size, WalkEntries(heap, entries[i..], visited.ids, depth)) == WalkEntries(heap, entries, old(visited.ids), depth)
    {
      assert entries[i..][1..] == entries[i + 1..];
      var k := EstimateSizeOfCache(heap, entries[i].0, visited, depth);
      var v := EstimateSizeOfCache(heap, entries[i].1, visited, depth);
      size := size + (k + v);
      i := i + 1;
    }
  }

  /** The walk up the superclass chain, and over each class's declared fields. */
  method EstimateChain(heap: Heap, chain: seq<seq<Field>>, visited: IdentityVisited, depth: int) returns (size: nat)
    modifies visited
    ensures (size, visited.ids) == WalkChain(heap, chain, old(visited.ids), depth)
    decreases Budget(depth), 2
  {
    size := 0;
    var c := 0;
    assert chain[0..] == chain;
    while c < |chain|
      invariant 0 <= c <= |chain|
      invariant Add(size, WalkChain(heap, chain[c..], visited.ids, depth)) == WalkChain(heap, chain, old(visited.ids), depth)
    {
      assert chain[c..][1..] == chain[c + 1..];
      var s := EstimateFields(heap, chain[c], visited, depth);
      size := size + s;
      c := c + 1;
    }
  }

  /** The loop over one class's declared fields. */
  method EstimateFields(heap: Heap, fields: seq<Field>, visited: IdentityVisited, depth: int) returns (size: nat)
    modifies visited
    ensures (size, visited.ids) == WalkFields(heap, fields, old(visited.ids), depth)
    decreases Budget(depth), 1
  {
    size := 0;
    var i := 0;
    assert fields[0..] == fields;
    while i < |fields|
      invariant 0 <= i <= |fields|
      invariant Add(size, WalkFields(heap, fields[i..], visited.ids, depth)) == WalkFields(heap, fields, old(visited.ids), depth)
    {
      assert fields[i..][1..] == fields[i + 1..];
      var f := fields[i];
      if !f.isStatic && !f.isTransient {
        match f.read
        case Denied =>
          size := size + INACCESSIBLE_FIELD_SIZE;
        case Readable(value) =>
          var s := EstimateSizeOfCache(heap, value, visited, depth);
          size := size + s;
      }
      i := i + 1;
    }
  }
}
