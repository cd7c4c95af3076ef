/**
 The allocator of buffer.js over real memory: slices are views of a shared array,
 and filling one never changes another.
 */
module BufferPool {
  import opened PoolSpec

  type Octet = x: int | 0 <= x < 256

  datatype View = View(buffer: array<Octet>, start: nat, length: nat)
  {
    ghost predicate Fits() { start + length <= buffer.Length }

    ghost function Contents(): seq<Octet>
      requires Fits()
      reads buffer
    {
      buffer[start..start + length]
    }
  }

  // Storing an integer in an octet keeps it modulo 256.
  function ToOctets(obj: seq<int>): (r: seq<Octet>)
    ensures |r| == |obj|
    ensures forall i :: 0 <= i < |r| ==> (obj[i] - r[i]) % 256 == 0
  {
    seq(|obj|, i requires 0 <= i < |obj| => obj[i] % 256)
  }

  class Allocator {
    var setting: nat  // Buffer.poolSize
    var poolSize: nat
    var poolOffset: int
    var allocPool: array<Octet>

    ghost var model: Pool
    ghost var views: seq<View>

    // A view is the slice the model knows.
    ghost predicate Shows(v: View, s: Slice)
      reads this`allocPool, this`model
    {
      && v.Fits() && v.start == s.start && v.length == s.length
      && (v.buffer == allocPool <==> s.pool == model.id)
    }

    ghost predicate Valid()
      reads this
    {
      && Inv(model) && model.setting == setting && model.size == poolSize && model.offset == poolOffset
      && allocPool.Length == poolSize
      && |views| == |model.slices|
      && forall i :: 0 <= i < |views| ==> Shows(views[i], model.slices[i])
    }

    constructor ()
      ensures Valid() && model == Begin() && fresh(allocPool)
    {
      setting := DEFAULT_POOL;
      poolSize := DEFAULT_POOL;
      allocPool := new Octet[DEFAULT_POOL];
      poolOffset := 0;
      model, views := Begin(), [];
    }

    method Configure(size: nat)
      requires Valid() && Safe(size)
      modifies this
      ensures Valid() && model == Step(old(model), Request.Configure(size))
      ensures views == old(views) && allocPool == old(allocPool)
    {
      StepInv(model, Request.Configure(size));
      setting := size;
      model := model.(setting := size);
    }

    method CreatePool()
      modifies this
      ensures poolSize == setting == old(setting) && poolOffset == 0
      ensures allocPool.Length == poolSize && fresh(allocPool)
      ensures model == old(model) && views == old(views)
    {
      poolSize := setting;
      allocPool := new Octet[poolSize];
      poolOffset := 0;
    }

    // Room for a pooled request.
    method Reserve(want: nat)
      requires Valid() && Pooled(model, want)
      modifies this
      ensures Valid() && model == WithRoom(old(model), want) && poolOffset + want <= poolSize
      ensures views == old(views) && (allocPool == old(allocPool) || fresh(allocPool))
      ensures poolOffset >= 0
    {
      RoomInv(model, want);
      if want > poolSize - poolOffset {
        ghost var was := model;
        CreatePool();
        model := WithRoom(was, want);
        assert forall i :: 0 <= i < |views| ==> Behind(was, was.slices[i]);
      }
    }

    method AlignPool()
      modifies this`poolOffset
      ensures poolOffset == Align(old(poolOffset))
    {
      if ToInt32(poolOffset) % 8 != 0 {
        poolOffset := OrSeven(poolOffset);
        poolOffset := poolOffset + 1;
      }
    }

    // The next slice of the pool.
    method Claim(used: nat) returns (b: View)
      requires Valid() && poolOffset + used <= poolSize
      modifies this`poolOffset, this`model, this`views
      ensures Valid() && model == PoolSpec.Claim(old(model), used)
      ensures b.Fits() && b.buffer == allocPool && b.start == old(poolOffset) && b.length == used
      ensures views == old(views) + [b]
    {
      ClaimInv(model, used);
      b := View(allocPool, poolOffset, used);
      poolOffset := poolOffset + used;
      AlignPool();
      model := PoolSpec.Claim(model, used);
      views := views + [b];
    }

    // Octets stored from the pool's offset on leave every slice as it is.
    method Fill(octets: seq<Octet>)
      requires Valid() && poolOffset >= 0 && poolOffset + |octets| <= poolSize
      modifies allocPool
      ensures Valid()
      ensures allocPool[poolOffset..poolOffset + |octets|] == octets
      ensures forall i :: 0 <= i < |views| ==> views[i].Contents() == old(views[i].Contents())
    {
      hide Inv;
      var k := 0;
      while k < |octets|
        invariant 0 <= k <= |octets|
        invariant forall j :: 0 <= j < poolOffset ==> allocPool[j] == old(allocPool[j])
        invariant forall j :: 0 <= j < k ==> allocPool[poolOffset + j] == octets[j]
      {
        allocPool[poolOffset + k] := octets[k];
        k := k + 1;
      }
      forall i | 0 <= i < |views| ensures views[i].Contents() == old(views[i].Contents()) {
        BehindOffset(model, i);
        var v := views[i];
        assert Shows(v, model.slices[i]);
        assert v.buffer == allocPool ==> v.start + v.length <= poolOffset;
        assert forall j :: v.start <= j < v.start + v.length ==> v.buffer[j] == old(v.buffer[j]);
      }
    }

    // `allocate`.
    method Allocate(size: int) returns (b: View)
      requires Valid()
      modifies this
      ensures Valid() && model == if size > 0 then Step(old(model), Take(size, size)) else old(model)
      ensures b.Fits() && b.length == if size > 0 then size else 0
      ensures if size > 0 && Pooled(old(model), size) then views == old(views) + [b] else views == old(views) && fresh(b.buffer)
    {
      hide Inv;
      if size <= 0 {
        var none := new Octet[0];
        return View(none, 0, 0);
      }
      if size < Half(setting) {
        Reserve(size);
        b := Claim(size);
      } else {
        var own := new Octet[size];
        b := View(own, 0, size);
      }
    }

    // A pooled slice that holds the given octets.
    method FromOctets(octets: seq<Octet>, want: nat) returns (b: View)
      requires Valid() && Pooled(model, want) && |octets| <= want
      modifies this, allocPool
      ensures Valid() && model == Step(old(model), Take(want, |octets|))
      ensures b.Fits() && b.Contents() == octets
      ensures |old(views)| <= |views| && views[..|old(views)|] == old(views)
      ensures forall i :: 0 <= i < |old(views)| ==> old(views)[i].Contents() == old(views[i].Contents())
    {
      hide Inv;
      Reserve(want);
      Fill(octets);
      b := Claim(|octets|);
    }

    // `fromArrayLike`: the new slice holds the elements, each reduced to an octet.
    method FromArrayLike(obj: seq<int>) returns (b: View)
      requires Valid()
      modifies this, allocPool
      ensures Valid() && model == if |obj| > 0 then Step(old(model), Take(|obj|, |obj|)) else old(model)
      ensures b.Fits() && b.Contents() == ToOctets(obj)
      ensures |old(views)| <= |views| && views[..|old(views)|] == old(views)
      ensures forall i :: 0 <= i < |old(views)| ==> old(views)[i].Contents() == old(views[i].Contents())
    {
      hide Inv;
      if 0 < |obj| < Half(setting) {
        b := FromOctets(ToOctets(obj), |obj|);
      } else {
        b := Own(ToOctets(obj));
      }
    }

    // A buffer outside the pool.
    method Own(octets: seq<Octet>) returns (b: View)
      ensures fresh(b.buffer) && b.Fits() && b.Contents() == octets
    {
      var own := new Octet[|octets|](i requires 0 <= i < |octets| => octets[i]);
      b := View(own, 0, |octets|);
    }

    // `fromString`, `fromStringFast`: a string of `chars` units that encodes to the given
    // octets, at most four for each unit, which `byteLength` does not underestimate.
    method FromString(chars: nat, octets: seq<Octet>, byteLength: nat) returns (b: View)
      requires Valid() && |octets| <= 4 * chars && |octets| <= byteLength
      modifies this, allocPool
      ensures Valid() && b.Fits() && b.Contents() == octets
      ensures |old(views)| <= |views| && views[..|old(views)|] == old(views)
      ensures forall i :: 0 <= i < |old(views)| ==> old(views)[i].Contents() == old(views[i].Contents())
      ensures model == old(model) || exists want: nat :: |octets| <= want && model == Step(old(model), Take(want, |octets|))
    {
      hide Inv;
      var maxLength := Half(setting);
      var length := chars;
      if chars == 0 || length >= maxLength {
        b := Own(octets);
        return;
      }
      length := length * 4;
      if length >= maxLength {
        length := byteLength;
      }
      if length >= maxLength {
        b := Own(octets);
        return;
      }
      b := FromOctets(octets, length);
    }
  }

  lemma BehindOffset(p: Pool, i: nat)
    requires Inv(p) && i < |p.slices|
    ensures p.slices[i].pool == p.id ==> p.slices[i].start + p.slices[i].length <= p.offset
  {
    assert Behind(p, p.slices[i]);
  }
}
