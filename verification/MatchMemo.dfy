/** The per-line selector memo (internal/logline/selector.go): an open-addressed hash table whose
    slots carry the generation that wrote them, so that forgetting a line is one increment.
    It is proved to behave as a finite map that is emptied at every Reset. */
module MatchMemo {
  import opened Sets

  type uint64 = n: nat | n < 0x1_0000_0000_0000_0000
  type uint32 = n: nat | n < 0x1_0000_0000

  /** One memoized outcome, live only while `gen` is the context's. */
  datatype MemoSlot = MemoSlot(hash: uint64, gen: uint32, hit: bool)

  const EMPTY_SLOT := MemoSlot(0, 0, false)
  const MIN_MEMO_SLOTS := 16

  /** Bitwise "and". */
  function And(a: nat, b: nat): (c: nat)
    ensures c <= a && c <= b
    decreases a
  {
    if a == 0 || b == 0 then 0 else 2 * And(a / 2, b / 2) + if a % 2 == 1 && b % 2 == 1 then 1 else 0
  }

  predicate PowerOfTwo(n: nat) {
    n == 1 || (n > 1 && n % 2 == 0 && PowerOfTwo(n / 2))
  }

  /** Where a hash's probe starts. */
  function Home(hash: uint64, len: nat): (i: nat)
    requires len > 0
    ensures i < len
  {
    And(hash, len - 1)
  }

  function Next(i: nat, len: nat): (j: nat)
    requires i < len
    ensures j < len
  {
    if i + 1 == len then 0 else i + 1
  }

  /** Masking with one less than a power of two keeps what is below it, */
  lemma {:induction false} MaskKeeps(x: nat, len: nat)
    requires PowerOfTwo(len) && x < len
    ensures And(x, len - 1) == x
  {
    if len > 1 {
      var half := len / 2;
      assert (len - 1) / 2 == half - 1 && (len - 1) % 2 == 1 && x / 2 < half;
      MaskKeeps(x / 2, half);
    }
  }

  /** and drops the power itself. */
  lemma {:induction false} MaskDrops(len: nat)
    requires PowerOfTwo(len)
    ensures And(len, len - 1) == 0
  {
    if len > 1 {
      var half := len / 2;
      assert (len - 1) / 2 == half - 1 && len % 2 == 0;
      MaskDrops(half);
    }
  }

  /** The masked step of a probe is the step to the next slot, wrapping at the end. */
  lemma {:induction false} MaskedStepIsNext(i: nat, len: nat)
    requires PowerOfTwo(len) && i < len
    ensures And(i + 1, len - 1) == Next(i, len)
  {
    hide And, PowerOfTwo;
    if i + 1 == len {
      MaskDrops(len);
    } else {
      MaskKeeps(i + 1, len);
    }
  }

  /** Walking from h, k is met before i. */
  predicate Before(h: int, k: int, i: int) {
    if h <= i then h <= k < i else h <= k || k < i
  }

  predicate Live(s: seq<MemoSlot>, gen: uint32, i: int) {
    0 <= i < |s| && s[i].gen == gen
  }

  /** No gap between the home of slot i's hash and slot i. */
  ghost predicate NoGap(s: seq<MemoSlot>, gen: uint32, i: int)
    requires 0 <= i < |s|
  {
    forall k :: 0 <= k < |s| && Before(Home(s[i].hash, |s|), k, i) ==> Live(s, gen, k)
  }

  /** Where the table keeps each hash. */
  type Places = map<uint64, nat>

  /** The live slots carry exactly the entries of `memo`: each hash in one place, with its outcome,
      reachable from its home position without crossing a dead slot. */
  ghost predicate Holds(s: seq<MemoSlot>, gen: uint32, memo: map<uint64, bool>, at: Places) {
    && at.Keys == memo.Keys
    && (forall h {:trigger at[h]} {:trigger memo[h]} :: h in memo ==>
          Live(s, gen, at[h]) && s[at[h]].hash == h && s[at[h]].hit == memo[h] && NoGap(s, gen, at[h]))
    && (forall i {:trigger Live(s, gen, i)} :: Live(s, gen, i) ==> s[i].hash in memo && at[s[i].hash] == i)
  }

  /** Room enough: the table is at most half full, so that every probe meets a dead slot. */
  ghost predicate HalfFull(len: nat, memo: map<uint64, bool>) {
    2 * |memo| <= len && (len > 0 ==> len >= MIN_MEMO_SLOTS && PowerOfTwo(len))
  }

  function Hashes(s: seq<MemoSlot>): set<uint64> {
    set i | 0 <= i < |s| :: s[i].hash
  }

  lemma {:induction false} DistinctHashes(s: seq<MemoSlot>)
    requires forall i, j :: 0 <= i < j < |s| ==> s[i].hash != s[j].hash
    ensures |Hashes(s)| == |s|
  {
    if s != [] {
      var n := |s| - 1;
      DistinctHashes(s[..n]);
      assert Hashes(s) == Hashes(s[..n]) + {s[n].hash};
      assert s[n].hash !in Hashes(s[..n]);
    }
  }

  /** A table that is not full of live slots has a dead one. */
  lemma {:induction false} DeadSlotExists(s: seq<MemoSlot>, gen: uint32, memo: map<uint64, bool>, at: Places) returns (e: nat)
    requires Holds(s, gen, memo, at) && |memo| < |s|
    ensures e < |s| && !Live(s, gen, e)
  {
    if forall i :: 0 <= i < |s| ==> Live(s, gen, i) {
      forall i, j | 0 <= i < j < |s| ensures s[i].hash != s[j].hash {
        assert Live(s, gen, i) && Live(s, gen, j);
      }
      DistinctHashes(s);
      forall h | h in Hashes(s) ensures h in memo.Keys {
        var i :| 0 <= i < |s| && s[i].hash == h;
        assert Live(s, gen, i);
      }
      SubsetSize(Hashes(s), memo.Keys);
    }
    e :| 0 <= e < |s| && !Live(s, gen, e);
  }

  /** A probe for hash walked from its home up to i over live slots of other hashes. */
  ghost predicate Crossed(s: seq<MemoSlot>, gen: uint32, hash: uint64, i: int)
    requires 0 <= i < |s|
  {
    forall k {:trigger Live(s, gen, k)} :: 0 <= k < |s| && Before(Home(hash, |s|), k, i) ==>
      Live(s, gen, k) && s[k].hash != hash
  }

  lemma {:induction false} CrossNone(s: seq<MemoSlot>, gen: uint32, hash: uint64)
    requires |s| > 0
    ensures Crossed(s, gen, hash, Home(hash, |s|))
  {
  }

  lemma {:induction false} CrossOne(s: seq<MemoSlot>, gen: uint32, hash: uint64, i: nat)
    requires i < |s| && Crossed(s, gen, hash, i) && Live(s, gen, i) && s[i].hash != hash
    ensures Crossed(s, gen, hash, Next(i, |s|))
  {
  }

  /** A probe that met no other copy of its hash before a dead slot has proved its absence. */
  lemma {:induction false} ProbeEndsAtDeadSlot(s: seq<MemoSlot>, gen: uint32, memo: map<uint64, bool>, at: Places, hash: uint64, i: nat)
    requires Holds(s, gen, memo, at) && i < |s| && !Live(s, gen, i) && Crossed(s, gen, hash, i)
    ensures hash !in memo
  {
  }

  /** The dead slot that ends a probe may take the entry. */
  lemma {:induction false} EntryAdded(s: seq<MemoSlot>, gen: uint32, memo: map<uint64, bool>, at: Places, hash: uint64, i: nat, hit: bool)
    requires Holds(s, gen, memo, at) && i < |s| && !Live(s, gen, i) && Crossed(s, gen, hash, i)
    ensures Holds(s[i := MemoSlot(hash, gen, hit)], gen, memo[hash := hit], at[hash := i])
  {
    ProbeEndsAtDeadSlot(s, gen, memo, at, hash, i);
    var t, more, places := s[i := MemoSlot(hash, gen, hit)], memo[hash := hit], at[hash := i];
    forall h | h in more
      ensures Live(t, gen, places[h]) && t[places[h]].hash == h && t[places[h]].hit == more[h] && NoGap(t, gen, places[h])
    {
      if h != hash {
        assert Live(s, gen, at[h]) && NoGap(s, gen, at[h]);
      }
      forall k | 0 <= k < |t| && Before(Home(h, |t|), k, places[h]) ensures Live(t, gen, k) {
        assert k == i || Live(s, gen, k);
      }
    }
    forall k | Live(t, gen, k) ensures t[k].hash in more && places[t[k].hash] == k {
      assert k == i || Live(s, gen, k);
    }
  }

  lemma {:induction false} ClaimKeeps(s: seq<MemoSlot>, gen: uint32, memo: map<uint64, bool>, at: Places, hash: uint64, i: nat, hit: bool)
    requires Holds(s, gen, memo, at) && i < |s| && !Live(s, gen, i) && Crossed(s, gen, hash, i)
    requires StampedBy(s, gen) && HalfFull(|s|, memo) && 2 * (|memo| + 1) <= |s|
    ensures hash !in memo && |memo[hash := hit]| == |memo| + 1
    ensures Holds(s[i := MemoSlot(hash, gen, hit)], gen, memo[hash := hit], at[hash := i])
    ensures StampedBy(s[i := MemoSlot(hash, gen, hit)], gen) && HalfFull(|s|, memo[hash := hit])
    ensures Live(s[i := MemoSlot(hash, gen, hit)], gen, i)
  {
    ProbeEndsAtDeadSlot(s, gen, memo, at, hash, i);
    EntryAdded(s, gen, memo, at, hash, i, hit);
  }

  /** Overwriting the outcome in place keeps everything else. */
  lemma {:induction false} OutcomeReplaced(s: seq<MemoSlot>, gen: uint32, memo: map<uint64, bool>, at: Places, i: nat, hit: bool)
    requires Holds(s, gen, memo, at) && Live(s, gen, i)
    ensures Holds(s[i := s[i].(hit := hit)], gen, memo[s[i].hash := hit], at)
  {
    var t, more := s[i := s[i].(hit := hit)], memo[s[i].hash := hit];
    forall h | h in more
      ensures Live(t, gen, at[h]) && t[at[h]].hash == h && t[at[h]].hit == more[h] && NoGap(t, gen, at[h])
    {
      assert Live(s, gen, at[h]) && NoGap(s, gen, at[h]);
      forall k | 0 <= k < |t| && Before(Home(h, |t|), k, at[h]) ensures Live(t, gen, k) {
        assert Live(s, gen, k);
      }
    }
    forall k | Live(t, gen, k) ensures t[k].hash in more && at[t[k].hash] == k {
      assert Live(s, gen, k);
    }
  }

  lemma {:induction false} SetHitKeeps(s: seq<MemoSlot>, gen: uint32, memo: map<uint64, bool>, at: Places, i: nat, hit: bool)
    requires Holds(s, gen, memo, at) && Live(s, gen, i) && StampedBy(s, gen) && HalfFull(|s|, memo)
    ensures Holds(s[i := s[i].(hit := hit)], gen, memo[s[i].hash := hit], at)
    ensures StampedBy(s[i := s[i].(hit := hit)], gen)
    ensures |memo[s[i].hash := hit]| == |memo| && HalfFull(|s|, memo[s[i].hash := hit])
    ensures i < |s|
  {
    hide PowerOfTwo;
    OutcomeReplaced(s, gen, memo, at, i, hit);
    assert s[i].hash in memo;
    assert memo[s[i].hash := hit].Keys == memo.Keys;
  }

  /** With a larger generation nothing is live. */
  lemma {:induction false} NextGenerationIsEmpty(s: seq<MemoSlot>, gen: uint32)
    requires forall i :: 0 <= i < |s| ==> s[i].gen < gen
    ensures Holds(s, gen, map[], map[])
  {
  }

  /** The probe loop: the slot of this hash, or the dead slot that ends its probe. */
  method Probe(slots: array<MemoSlot>, gen: uint32, hash: uint64, ghost memo: map<uint64, bool>, ghost at: Places)
    returns (i: nat, known: bool)
    requires Holds(slots[..], gen, memo, at) && |memo| < slots.Length
    ensures i < slots.Length && Crossed(slots[..], gen, hash, i)
    ensures known <==> hash in memo
    ensures known <==> Live(slots[..], gen, i)
    ensures known ==> slots[i].hash == hash && slots[i].hit == memo[hash]
  {
    ghost var s := slots[..];
    ghost var e := DeadSlotExists(s, gen, memo, at);
    i := Home(hash, slots.Length);
    CrossNone(s, gen, hash);
    while true
      invariant i < slots.Length && Crossed(s, gen, hash, i)
      decreases if i <= e then e - i else slots.Length - i + e
    {
      if slots[i].gen != gen {
        ProbeEndsAtDeadSlot(s, gen, memo, at, hash, i);
        return i, false;
      }
      assert Live(s, gen, i);
      if slots[i].hash == hash {
        return i, true;
      }
      CrossOne(s, gen, hash, i);
      i := Next(i, slots.Length);
    }
  }

  class MatchContext {
    var slots: array<MemoSlot> // of power-of-two length; empty until the first Store
    var gen: uint32 // this line's stamp
    var n: nat // slots stamped with gen
    ghost var memo: map<uint64, bool> // what the table stands for
    ghost var at: Places

    ghost predicate Valid()
      reads this, slots
    {
      && Holds(slots[..], gen, memo, at)
      && HalfFull(slots.Length, memo)
      && n == |memo|
      && StampedBy(slots[..], gen)
      && (gen == 0 ==> slots.Length == 0)
    }

    constructor ()
      ensures Valid() && memo == map[] && fresh(slots)
    {
      slots := new MemoSlot[0];
      gen, n, memo, at := 0, 0, map[], map[];
    }

    /** Forgets the line's entries. The stamps wrap after 2^32 lines; then, and only then, the slots
        are cleared, so that no slot written 2^32 lines ago reads as current. */
    method Reset()
      requires Valid()
      modifies this`gen, this`n, this`memo, this`at, slots
      ensures Valid() && memo == map[]
    {
      hide Holds, PowerOfTwo;
      n, memo, at := 0, map[], map[];
      gen := (gen + 1) % 0x1_0000_0000;
      if gen == 0 {
        forall i | 0 <= i < slots.Length {
          slots[i] := EMPTY_SLOT;
        }
        gen := 1;
      }
      NextGenerationIsEmpty(slots[..], gen);
    }

    method Cached(hash: uint64) returns (result: bool, known: bool)
      requires Valid()
      ensures known <==> hash in memo
      ensures result == (known && memo[hash])
    {
      if n == 0 {
        return false, false;
      }
      var i;
      i, known := Probe(slots, gen, hash, memo, at);
      result := known && slots[i].hit;
    }

    /** Records an outcome under its hash for the rest of the line. */
    method Store(hash: uint64, result: bool)
      requires Valid()
      modifies this, slots
      ensures Valid() && memo == old(memo)[hash := result]
      ensures slots == old(slots) || fresh(slots)
    {
      hide Holds;
      var i, known := Slot(hash);
      if !known {
        Claim(i, hash);
      }
      SetHit(i, hash, result);
    }

    /** The slot holding hash, or, when unknown, the dead slot it belongs in, room for it included. */
    method Slot(hash: uint64) returns (i: nat, known: bool)
      requires Valid()
      modifies this
      ensures Valid() && memo == old(memo)
      ensures slots == old(slots) || fresh(slots)
      ensures known <==> hash in memo
      ensures known ==> Live(slots[..], gen, i) && slots[i].hash == hash && slots[i].hit == memo[hash]
      ensures !known ==> MayClaim(hash, i)
    {
      if gen == 0 {
        gen := 1;
      }
      if 2 * (n + 1) > slots.Length {
        Grow();
      }
      i, known := Probe(slots, gen, hash, memo, at);
    }

    /** Slot i is dead, ends the probe for hash, and may be filled. */
    ghost predicate MayClaim(hash: uint64, i: nat)
      reads this, slots
    {
      && gen > 0 && 2 * (|memo| + 1) <= slots.Length
      && i < slots.Length && !Live(slots[..], gen, i) && Crossed(slots[..], gen, hash, i)
    }

    /** Stamps the dead slot as this line's. Its outcome is whatever the slot last held, until the
        caller sets it. */
    method Claim(i: nat, hash: uint64)
      requires Valid() && MayClaim(hash, i)
      modifies this`n, this`memo, this`at, slots
      ensures Valid() && hash !in old(memo) && memo == old(memo)[hash := old(slots[i].hit)]
      ensures Live(slots[..], gen, i) && slots[i].hash == hash
    {
      hide Holds, Crossed, StampedBy, HalfFull, Live;
      ghost var s := slots[..];
      ClaimKeeps(s, gen, memo, at, hash, i, slots[i].hit);
      slots[i] := slots[i].(hash := hash, gen := gen);
      assert slots[..] == s[i := MemoSlot(hash, gen, s[i].hit)];
      n := n + 1;
      memo, at := memo[hash := slots[i].hit], at[hash := i];
    }

    method SetHit(i: nat, ghost hash: uint64, result: bool)
      requires Valid() && Live(slots[..], gen, i) && slots[i].hash == hash
      modifies this`memo, slots
      ensures Valid() && memo == old(memo)[hash := result]
      ensures slots[i].hash == hash && slots[i].hit == result
    {
      hide Holds, StampedBy, HalfFull, Live;
      ghost var s := slots[..];
      SetHitKeeps(s, gen, memo, at, i, result);
      slots[i] := slots[i].(hit := result);
      assert slots[..] == s[i := slots[i]];
      memo := memo[hash := result];
    }

    /** Doubles the table, carrying this line's entries and no others. */
    method Grow()
      requires Valid() && gen > 0
      modifies this`slots, this`at
      ensures Valid() && fresh(slots)
      ensures slots.Length == GrownLength(old(slots.Length))
    {
      var oldSlots := slots;
      hide Holds;
      slots := new MemoSlot[GrownLength(oldSlots.Length)](_ => EMPTY_SLOT);
      at := CarryOver(oldSlots, slots, gen, memo, at);
      assert HalfFull(slots.Length, memo);
      assert Holds(slots[..], gen, memo, at);
      assert StampedBy(slots[..], gen);
    }
  }

  /** Re-inserts this line's entries; the stale ones are not carried. */
  method CarryOver(oldSlots: array<MemoSlot>, slots: array<MemoSlot>, gen: uint32, ghost memo: map<uint64, bool>,
                   ghost at: Places) returns (ghost places: Places)
    requires oldSlots != slots && |memo| <= slots.Length
    requires Holds(oldSlots[..], gen, memo, at)
    requires gen > 0 && forall i :: 0 <= i < slots.Length ==> slots[i] == EMPTY_SLOT
    modifies slots
    ensures Holds(slots[..], gen, memo, places) && StampedBy(slots[..], gen)
  {
    ghost var was := oldSlots[..];
    ghost var carried: map<uint64, bool> := map[];
    NextGenerationIsEmpty(slots[..], gen);
    places := map[];
    for j := 0 to oldSlots.Length
      invariant oldSlots[..] == was
      invariant Holds(slots[..], gen, carried, places) && StampedBy(slots[..], gen)
      invariant CarriedFrom(j, memo, at, carried)
    {
      hide Holds;
      if oldSlots[j].gen != gen {
        OtherGenerationsStayBehind(was, gen, j, memo, at, carried);
        continue;
      }
      LiveEntry(was, gen, memo, at, j);
      CarriedOneMore(j, memo, at, carried, oldSlots[j].hash);
      places := Reinsert(slots, gen, oldSlots[j], carried, places);
      carried := carried[oldSlots[j].hash := oldSlots[j].hit];
    }
    AllCarried(was, gen, memo, at, carried);
  }

  ghost predicate StampedBy(s: seq<MemoSlot>, gen: uint32) {
    forall i :: 0 <= i < |s| ==> s[i].gen <= gen
  }

  function GrownLength(len: nat): nat {
    if 2 * len < MIN_MEMO_SLOTS then MIN_MEMO_SLOTS else 2 * len
  }

  /** Puts a live entry into the first dead slot at or after its home. */
  method Reinsert(slots: array<MemoSlot>, gen: uint32, entry: MemoSlot, ghost memo: map<uint64, bool>, ghost at: Places)
    returns (ghost places: Places)
    requires Holds(slots[..], gen, memo, at) && |memo| < slots.Length && StampedBy(slots[..], gen)
    requires entry.gen == gen && entry.hash !in memo
    modifies slots
    ensures Holds(slots[..], gen, memo[entry.hash := entry.hit], places) && StampedBy(slots[..], gen)
  {
    ghost var s := slots[..];
    ghost var e := DeadSlotExists(s, gen, memo, at);
    var i: nat := Home(entry.hash, slots.Length);
    CrossNone(s, gen, entry.hash);
    while slots[i].gen == gen
      invariant slots[..] == s
      invariant i < slots.Length && Crossed(s, gen, entry.hash, i)
      decreases if i <= e then e - i else slots.Length - i + e
    {
      assert Live(s, gen, i);
      CrossOne(s, gen, entry.hash, i);
      i := Next(i, slots.Length);
    }
    EntryAdded(s, gen, memo, at, entry.hash, i, entry.hit);
    slots[i] := entry;
    assert slots[..] == s[i := entry];
    places := at[entry.hash := i];
  }

  /** `carried` holds exactly the memo entries kept in the first j slots. */
  ghost predicate CarriedFrom(j: nat, memo: map<uint64, bool>, at: Places, carried: map<uint64, bool>)
    requires at.Keys == memo.Keys
  {
    && (forall h :: h in carried ==> h in memo && carried[h] == memo[h])
    && (forall h :: h in memo ==> (h in carried <==> at[h] < j))
  }

  lemma {:induction false} LiveEntry(s: seq<MemoSlot>, gen: uint32, memo: map<uint64, bool>, at: Places, j: nat)
    requires Holds(s, gen, memo, at) && Live(s, gen, j)
    ensures s[j].hash in memo && at[s[j].hash] == j && memo[s[j].hash] == s[j].hit
    ensures forall h :: h in memo && at[h] == j ==> h == s[j].hash
  {
  }

  lemma {:induction false} CarriedOneMore(j: nat, memo: map<uint64, bool>, at: Places, carried: map<uint64, bool>, hash: uint64)
    requires at.Keys == memo.Keys && CarriedFrom(j, memo, at, carried)
    requires hash in memo && at[hash] == j && forall h :: h in memo && at[h] == j ==> h == hash
    ensures hash !in carried && |carried| < |memo|
    ensures CarriedFrom(j + 1, memo, at, carried[hash := memo[hash]])
  {
    ProperSubsetSize(carried.Keys, memo.Keys, hash);
  }

  lemma {:induction false} ProperSubsetSize<T>(a: set<T>, b: set<T>, x: T)
    requires a <= b && x in b && x !in a
    ensures |a| < |b|
  {
    SubsetSize(a, b - {x});
  }

  lemma {:induction false} OtherGenerationsStayBehind(s: seq<MemoSlot>, gen: uint32, j: nat, memo: map<uint64, bool>, at: Places,
                                   carried: map<uint64, bool>)
    requires Holds(s, gen, memo, at) && CarriedFrom(j, memo, at, carried) && j < |s| && !Live(s, gen, j)
    ensures CarriedFrom(j + 1, memo, at, carried)
  {
  }

  lemma {:induction false} AllCarried(s: seq<MemoSlot>, gen: uint32, memo: map<uint64, bool>, at: Places, carried: map<uint64, bool>)
    requires Holds(s, gen, memo, at) && CarriedFrom(|s|, memo, at, carried)
    ensures carried == memo
  {
  }
}
