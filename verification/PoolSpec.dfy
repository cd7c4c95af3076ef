/**
 The buffer pool as arithmetic: where `allocate`, `fromStringFast` and
 `fromArrayLike` put their slices.
 */
module PoolSpec {

  const INT32: int := 0x8000_0000
  const UINT32: int := 0x1_0000_0000
  const DEFAULT_POOL: nat := 8 * 1024

  // ---------------------------------------------------------------- 32-bit operators

  function ToUint32(x: int): (r: nat)
    ensures r < UINT32
  {
    x % UINT32
  }

  function ToInt32(x: int): (r: int)
    ensures -INT32 <= r < INT32
  {
    var u := ToUint32(x);
    if u < INT32 then u else u - UINT32
  }

  // x | 7 on 32 bits.
  function OrSeven(x: int): int { ToInt32(x) - ToInt32(x) % 8 + 7 }

  // x >>> 1 on 32 bits.
  function Half(x: int): nat { ToUint32(x) / 2 }

  // `alignPool`.
  function Align(offset: int): int
  {
    if ToInt32(offset) % 8 != 0 then OrSeven(offset) + 1 else offset
  }

  function RoundUp(x: int): (r: int)
    ensures r % 8 == 0 && x <= r < x + 8
  {
    x + (8 - x % 8) % 8
  }

  lemma LowBits(x: int)
    ensures ToInt32(x) % 8 == x % 8
  {
    var q := x / UINT32;
    assert x == ToUint32(x) + 8 * (0x2000_0000 * q);
    Shift(ToUint32(x), 0x2000_0000 * q);
    Shift(ToUint32(x), -0x2000_0000);
  }

  lemma Shift(a: int, k: int)
    ensures (a + 8 * k) % 8 == a % 8
  { }

  // The 32-bit operators round up to a multiple of eight exactly below 2^31, or where
  // there is nothing to do.
  lemma AlignExact(offset: int)
    requires offset >= 0
    ensures Align(offset) == RoundUp(offset) <==> offset < INT32 || offset % 8 == 0
  {
    LowBits(offset);
  }

  // ---------------------------------------------------------------- the pool

  datatype Slice = Slice(pool: nat, poolSize: nat, start: int, length: nat)

  // `setting` is Buffer.poolSize, which programs may change at any time.
  datatype Pool = Pool(setting: nat, id: nat, size: nat, offset: int, slices: seq<Slice>)

  // A pooled allocation asks for `want` octets and keeps `used` of them.
  datatype Request = Configure(size: nat) | Take(want: nat, used: nat)

  function Begin(): Pool { Pool(DEFAULT_POOL, 0, DEFAULT_POOL, 0, []) }

  predicate ValidRequest(r: Request) { r.Take? ==> r.used <= r.want }

  // Too large a request does not touch the pool. A string may turn out to need no
  // octet, which takes an empty slice if the string itself was short enough.
  predicate Pooled(p: Pool, want: nat) { want < Half(p.setting) && Half(p.setting) >= 2 }

  // `createPool` where the pool has no room.
  function WithRoom(p: Pool, want: nat): Pool
  {
    if want > p.size - p.offset then p.(id := p.id + 1, size := p.setting, offset := 0) else p
  }

  function Claim(p: Pool, used: nat): Pool
  {
    p.(slices := p.slices + [Slice(p.id, p.size, p.offset, used)], offset := Align(p.offset + used))
  }

  function Step(p: Pool, r: Request): Pool
  {
    match r
    case Configure(size) => p.(setting := size)
    case Take(want, used) => if Pooled(p, want) then Claim(WithRoom(p, want), used) else p
  }

  function Run(p: Pool, requests: seq<Request>): Pool
    decreases |requests|
  {
    if requests == [] then p else Run(Step(p, requests[0]), requests[1..])
  }

  predicate ValidRequests(requests: seq<Request>) { forall i :: 0 <= i < |requests| ==> ValidRequest(requests[i]) }

  // Valid requests that set no pool size but this one.
  predicate Under(size: nat, requests: seq<Request>)
  {
    && ValidRequests(requests)
    && forall i :: 0 <= i < |requests| && requests[i].Configure? ==> requests[i].size == size
  }

  // ---------------------------------------------------------------- what slices promise

  // In bounds and aligned.
  predicate Placed(s: Slice) { 0 <= s.start && s.start + s.length <= s.poolSize && s.start % 8 == 0 }

  // A later slice of the same pool lies behind an earlier one.
  predicate Apart(a: Slice, b: Slice) { a.pool == b.pool ==> a.start + a.length <= b.start }

  predicate Sound(p: Pool)
  {
    && (forall i :: 0 <= i < |p.slices| ==> Placed(p.slices[i]))
    && forall i, j :: 0 <= i < j < |p.slices| ==> Apart(p.slices[i], p.slices[j])
  }

  // Pool sizes for which the slices are sound: 32-bit offsets suffice, or nothing is pooled.
  predicate Safe(size: nat) { size <= INT32 || Half(size) <= 1 }

  // Every slice lies before the offset of its pool.
  predicate Behind(p: Pool, s: Slice) { s.pool <= p.id && (s.pool == p.id ==> s.start + s.length <= p.offset) }

  predicate Inv(p: Pool)
  {
    && Sound(p) && Safe(p.setting) && p.size <= INT32
    && 0 <= p.offset && p.offset % 8 == 0
    && forall i :: 0 <= i < |p.slices| ==> Behind(p, p.slices[i])
  }

  lemma RoomInv(p: Pool, want: nat)
    requires Inv(p) && Pooled(p, want)
    ensures Inv(WithRoom(p, want)) && WithRoom(p, want).offset + want <= WithRoom(p, want).size
  {
    assert Half(p.setting) <= p.setting;
    var q := WithRoom(p, want);
    forall i | 0 <= i < |q.slices| ensures Behind(q, q.slices[i]) {
      assert Behind(p, p.slices[i]);
    }
  }

  lemma ClaimInv(p: Pool, used: nat)
    requires Inv(p) && p.offset + used <= p.size
    ensures Inv(Claim(p, used))
  {
    var q := Claim(p, used);
    var s := Slice(p.id, p.size, p.offset, used);
    AlignExact(p.offset + used);
    forall i | 0 <= i < |q.slices| ensures Behind(q, q.slices[i]) && Placed(q.slices[i]) {
      if i < |p.slices| { assert Behind(p, p.slices[i]) && Placed(p.slices[i]); }
    }
    forall i, j | 0 <= i < j < |q.slices| ensures Apart(q.slices[i], q.slices[j]) {
      if j < |p.slices| { assert Apart(p.slices[i], p.slices[j]); } else { assert Behind(p, p.slices[i]); }
    }
  }

  lemma StepInv(p: Pool, r: Request)
    requires Inv(p) && ValidRequest(r) && (r.Configure? ==> Safe(r.size))
    ensures Inv(Step(p, r))
  {
    hide Sound, Safe, Behind;
    match r
    case Configure(size) => ConfigureInv(p, size);
    case Take(want, used) =>
      if Pooled(p, want) {
        RoomInv(p, want);
        ClaimInv(WithRoom(p, want), used);
      }
  }

  lemma ConfigureInv(p: Pool, size: nat)
    requires Inv(p) && Safe(size)
    ensures Inv(p.(setting := size))
  {
    forall i | 0 <= i < |p.slices| ensures Behind(p.(setting := size), p.slices[i]) {
      assert Behind(p, p.slices[i]);
    }
  }

  lemma {:induction false} RunInv(p: Pool, requests: seq<Request>)
    requires Inv(p) && ValidRequests(requests)
    requires forall i :: 0 <= i < |requests| && requests[i].Configure? ==> Safe(requests[i].size)
    ensures Inv(Run(p, requests))
    decreases |requests|
  {
    hide Inv, Step, Safe;
    if requests != [] {
      StepInv(p, requests[0]);
      RunInv(Step(p, requests[0]), requests[1..]);
    }
  }

  // Whatever is allocated and however the pool size changes among safe sizes, all
  // slices are in bounds, aligned and disjoint.
  lemma SlicesSound(requests: seq<Request>)
    requires ValidRequests(requests)
    requires forall i :: 0 <= i < |requests| && requests[i].Configure? ==> Safe(requests[i].size)
    ensures Sound(Run(Begin(), requests))
  {
    RunInv(Begin(), requests);
  }

  // ---------------------------------------------------------------- unsafe sizes

  function Ones(n: nat): seq<Request> { seq(n, i => Take(1, 1)) }

  lemma {:induction false} RunConcat(p: Pool, a: seq<Request>, b: seq<Request>)
    ensures Run(p, a + b) == Run(Run(p, a), b)
    decreases |a|
  {
    hide Step;
    if a == [] {
      assert a + b == b;
    } else {
      assert (a + b)[1..] == a[1..] + b;
      RunConcat(Step(p, a[0]), a[1..], b);
    }
  }

  // One octet at a time moves the offset by eight.
  lemma {:induction false} OnesRun(p: Pool, n: nat)
    requires Half(p.setting) >= 2 && p.offset >= 0 && p.offset % 8 == 0
    requires n > 0 ==> p.offset + 8 * n <= INT32 && p.offset + 8 * n - 8 < p.size
    ensures var q := Run(p, Ones(n));
            q.setting == p.setting && q.id == p.id && q.size == p.size && q.offset == p.offset + 8 * n
    decreases n
  {
    hide Align;
    if n > 0 {
      assert Ones(n)[0] == Take(1, 1) && Ones(n)[1..] == Ones(n - 1);
      AlignExact(p.offset + 1);
      assert RoundUp(p.offset + 1) == p.offset + 8;
      OnesRun(Step(p, Take(1, 1)), n - 1);
    }
  }

  lemma OneStep(p: Pool, tail: seq<Request>)
    requires Half(p.setting) >= 2
    ensures Run(p, [Take(1, 1)] + tail) == Run(Claim(WithRoom(p, 1), 1), tail)
  {
    assert ([Take(1, 1)] + tail)[1..] == tail;
  }

  // The allocations that break an unsafe size: single octets, past the default pool
  // and then to 2^31, where the next one wraps the offset below zero.
  function Breaking(size: nat): seq<Request>
  {
    [Configure(size)] + Ones(1024) + Ones(1) + Ones(0x1000_0000 - 1) + Ones(1) + Ones(1)
  }

  lemma OnlyOne(p: Pool)
    requires Half(p.setting) >= 2
    ensures Run(p, Ones(1)) == Claim(WithRoom(p, 1), 1)
  {
    assert Ones(1) == [Take(1, 1)] + [];
    OneStep(p, []);
  }

  lemma Unsafe(size: nat)
    requires !Safe(size)
    ensures !Sound(Run(Begin(), Breaking(size)))
  {
    hide Run, Align;
    var start := Begin().(setting := size);
    var a := Run(start, Ones(1024));
    OnesRun(start, 1024);
    var b := Run(a, Ones(1));
    OnlyOne(a);
    AlignExact(1);
    assert b.offset == 8 && b.size == size;
    var c := Run(b, Ones(0x1000_0000 - 1));
    OnesRun(b, 0x1000_0000 - 1);
    assert c.offset == INT32;
    var d := Run(c, Ones(1));
    OnlyOne(c);
    assert d.offset < 0 by { Wrapped(); }
    var e := Run(d, Ones(1));
    OnlyOne(d);
    assert !Placed(e.slices[|e.slices| - 1]);
    Chain(size, a, b, c, d);
  }

  lemma Wrapped()
    ensures Align(INT32 + 1) < 0
  { }

  lemma Chain(size: nat, a: Pool, b: Pool, c: Pool, d: Pool)
    requires a == Run(Begin().(setting := size), Ones(1024))
    requires b == Run(a, Ones(1)) && c == Run(b, Ones(0x1000_0000 - 1)) && d == Run(c, Ones(1))
    ensures Run(Begin(), Breaking(size)) == Run(d, Ones(1))
  {
    hide Run, Ones;
    var start := Begin();
    var first := [Configure(size)];
    ConfigureRun(start, size);
    RunConcat(start, first, Ones(1024));
    RunConcat(start, first + Ones(1024), Ones(1));
    RunConcat(start, first + Ones(1024) + Ones(1), Ones(0x1000_0000 - 1));
    RunConcat(start, first + Ones(1024) + Ones(1) + Ones(0x1000_0000 - 1), Ones(1));
    RunConcat(start, first + Ones(1024) + Ones(1) + Ones(0x1000_0000 - 1) + Ones(1), Ones(1));
  }

  lemma ConfigureRun(p: Pool, size: nat)
    ensures Run(p, [Configure(size)]) == p.(setting := size)
  {
    assert [Configure(size)][1..] == [];
  }

  // A pool size is safe exactly when every sequence of allocations under it is sound.
  lemma SafeExact(size: nat)
    ensures Safe(size) <==>
      forall requests :: Under(size, requests) ==> Sound(Run(Begin(), requests))
  {
    if Safe(size) {
      forall requests | Under(size, requests) ensures Sound(Run(Begin(), requests)) {
        SlicesSound(requests);
      }
    } else {
      var r := Breaking(size);
      BreakingValid(size);
      Unsafe(size);
    }
  }

  lemma BreakingValid(size: nat)
    ensures Under(size, Breaking(size))
  { }

  // ---------------------------------------------------------------- where slices go

  // Below half the pool size, and only then, a request is served from the pool.
  lemma PooledExactly(p: Pool, want: nat)
    requires p.setting < 0x1_0000_0000
    ensures Pooled(p, want) <==> want < p.setting / 2 && p.setting >= 4
  { }

  // A request takes the next aligned place of the pool if it fits, and else the start of a
  // new pool of the size set; other requests leave the pool alone.
  lemma TakeExact(p: Pool, want: nat, used: nat)
    requires Inv(p) && used <= want
    ensures var q := Step(p, Take(want, used));
            if !Pooled(p, want) then q == p
            else
              var s := Slice(p.id, p.size, p.offset, used);
              if p.offset + want <= p.size then q == p.(slices := p.slices + [s], offset := RoundUp(p.offset + used))
              else q == p.(slices := p.slices + [Slice(p.id + 1, p.setting, 0, used)], id := p.id + 1, size := p.setting, offset := RoundUp(used))
  {
    hide Sound, Behind;
    if Pooled(p, want) {
      RoomInv(p, want);
      var r := WithRoom(p, want);
      AlignExact(r.offset + used);
    }
  }

  // Slices of one pool follow each other with no gap but the alignment.
  predicate Snug(p: Pool)
  {
    && (forall j :: 0 <= j < |p.slices| - 1 ==>
          p.slices[j + 1].start == if p.slices[j + 1].pool == p.slices[j].pool then RoundUp(p.slices[j].start + p.slices[j].length) else 0)
    && (|p.slices| > 0 && p.slices[|p.slices| - 1].pool == p.id ==>
          p.offset == RoundUp(p.slices[|p.slices| - 1].start + p.slices[|p.slices| - 1].length))
    && (|p.slices| > 0 && p.slices[|p.slices| - 1].pool != p.id ==> p.offset == 0)
  }

  lemma SnugStep(p: Pool, r: Request)
    requires Inv(p) && Snug(p) && ValidRequest(r)
    ensures Snug(Step(p, r))
  {
    hide Inv, RoundUp;
    match r
    case Configure(size) =>
    case Take(want, used) =>
      TakeExact(p, want, used);
      LastBehind(p);
  }

  lemma LastBehind(p: Pool)
    requires Inv(p)
    ensures |p.slices| > 0 ==> p.slices[|p.slices| - 1].pool <= p.id
  {
    if |p.slices| > 0 { assert Behind(p, p.slices[|p.slices| - 1]); }
  }

  lemma {:induction false} RunSnug(p: Pool, requests: seq<Request>)
    requires Inv(p) && Snug(p) && ValidRequests(requests)
    requires forall i :: 0 <= i < |requests| && requests[i].Configure? ==> Safe(requests[i].size)
    ensures Snug(Run(p, requests))
    decreases |requests|
  {
    hide Inv, Step, Safe, Snug;
    if requests != [] {
      StepInv(p, requests[0]);
      SnugStep(p, requests[0]);
      RunSnug(Step(p, requests[0]), requests[1..]);
    }
  }

  // On every run no room is wasted.
  lemma SlicesSnug(requests: seq<Request>)
    requires ValidRequests(requests)
    requires forall i :: 0 <= i < |requests| && requests[i].Configure? ==> Safe(requests[i].size)
    ensures Snug(Run(Begin(), requests))
  {
    RunSnug(Begin(), requests);
  }
}
