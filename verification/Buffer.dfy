// The fixed-capacity byte vector every expander writes to (src/features/buffer/mod.rs).
module Buffer {
  import opened Bytes

  const CAPACITY: nat := 256

  // Cutting early or late makes no difference.
  lemma TakeConcat<T>(a: seq<T>, b: seq<T>, n: nat)
    ensures Take(Take(a, n) + b, n) == Take(a + b, n)
  {
  }

  // Holds the first CAPACITY bytes of everything pushed; the rest is silently dropped.
  class ByteVec {
    const items: array<byte>
    var len: nat
    ghost var pushed: bytes

    ghost predicate Valid()
      reads this, items
    {
      items.Length == CAPACITY && len == Min(|pushed|, CAPACITY) && items[..len] == Take(pushed, CAPACITY)
    }

    constructor ()
      ensures Valid() && fresh(items) && pushed == []
    {
      items := new byte[CAPACITY](_ => 0);
      len := 0;
      pushed := [];
    }

    method Push(b: byte)
      requires Valid()
      modifies this, items
      ensures Valid() && pushed == old(pushed) + [b]
    {
      TakeConcat(pushed, [b], CAPACITY);
      if len < CAPACITY {
        items[len] := b;
        len := len + 1;
      }
      pushed := pushed + [b];
    }

    method Extend(other: bytes)
      requires Valid()
      modifies this, items
      ensures Valid() && pushed == old(pushed) + other
    {
      for k := 0 to |other|
        invariant Valid() && pushed == old(pushed) + other[..k]
      {
        Push(other[k]);
        assert other[..k + 1] == other[..k] + [other[k]];
      }
      assert other[..|other|] == other;
    }

    function AsSlice(): (r: bytes)
      requires Valid()
      reads this, items
      ensures r == Take(pushed, CAPACITY)
    {
      items[..len]
    }
  }
}
