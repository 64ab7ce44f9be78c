/**
  A growable byte buffer, as much of `Vec<u8>` as the generated encoders use: capacity, push, extend and
  truncate, with its contents as a sequence.
*/
module ByteVecs {
  import opened Bytes

  class ByteVec {
    var data: array<Byte>
    var len: nat

    ghost predicate Valid()
      reads this
    {
      len <= data.Length
    }

    ghost function View(): (s: seq<Byte>)
      requires Valid()
      reads this, data
    {
      data[..len]
    }

    constructor WithCapacity(n: nat)
      ensures Valid() && fresh(data) && View() == []
    {
      data := new Byte[n];
      len := 0;
    }

    /** `reserve`: contents unchanged, room for `extra` more bytes. */
    method Reserve(extra: nat)
      requires Valid()
      modifies this`data
      ensures Valid() && len == old(len) && View() == old(View())
      ensures data.Length >= len + extra
      ensures data == old(data) || fresh(data)
    {
      if data.Length < len + extra {
        var bigger := new Byte[len + extra];
        forall i | 0 <= i < len { bigger[i] := data[i]; }
        data := bigger;
        assert data[..len] == old(data[..len]);
      }
    }

    method Push(b: Byte)
      requires Valid()
      modifies this, data
      ensures Valid() && View() == old(View()) + [b]
      ensures data == old(data) || fresh(data)
    {
      Reserve(1);
      data[len] := b;
      len := len + 1;
      assert data[..len] == data[..len - 1] + [b];
    }

    method Extend(s: seq<Byte>)
      requires Valid()
      modifies this, data
      ensures Valid() && View() == old(View()) + s
      ensures data == old(data) || fresh(data)
    {
      Reserve(|s|);
      ghost var before := View();
      forall i | 0 <= i < |s| { data[len + i] := s[i]; }
      len := len + |s|;
      assert data[..len] == before + s;
    }

    method Truncate(n: nat)
      requires Valid() && n <= len
      modifies this`len
      ensures Valid() && data == old(data) && View() == old(View())[..n]
    {
      len := n;
    }
  }
}
