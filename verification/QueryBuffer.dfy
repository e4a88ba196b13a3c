/**
 The output buffer of a `QueryBuild`: a growing array that always keeps room for a terminator.
 */
module QueryBuffer {
  import opened CBytes

  const INIT_MIN_ALLOC: nat := 4096

  function Doubling(k: nat): nat { if k == 0 then INIT_MIN_ALLOC else 2 * Doubling(k - 1) }

  /** The first of 4096, 8192, ... that exceeds `newsize`. */
  ghost predicate FirstDoubling(size: nat, newsize: nat) {
    exists k: nat :: size == Doubling(k) > newsize && (k > 0 ==> Doubling(k - 1) <= newsize)
  }

  class Buffer {
    var query_statement: array<byte>
    var str_alsize: nat
    var npos: nat

    ghost predicate Valid()
      reads this
    {
      str_alsize == query_statement.Length && npos < str_alsize
    }

    /** The text built so far. */
    ghost function Contents(): seq<byte>
      reads this, query_statement
      requires Valid()
    {
      query_statement[..npos]
    }

    constructor (alloc: nat)
      requires alloc > 0
      ensures Valid() && fresh(query_statement) && Contents() == [] && str_alsize == alloc
    {
      query_statement := new byte[alloc](i => NUL);
      str_alsize, npos := alloc, 0;
    }

    /** `enlarge_query_statement`: the new size is the first doubling of 4096 above `newsize`, which
        may be less than the present size; the bytes both sizes have in common are kept. */
    method Enlarge(newsize: nat)
      requires Valid() && npos <= newsize
      modifies this
      ensures Valid() && fresh(query_statement) && npos == old(npos)
      ensures str_alsize > newsize && FirstDoubling(str_alsize, newsize)
      ensures Contents() == old(Contents())
    {
      var newalsize := INIT_MIN_ALLOC;
      ghost var k: nat := 0;
      while newalsize <= newsize
        invariant newalsize == Doubling(k) >= INIT_MIN_ALLOC && (k > 0 ==> Doubling(k - 1) <= newsize)
        decreases newsize - newalsize
      {
        k := k + 1;
        newalsize := newalsize * 2;
      }
      var src := query_statement;
      var dst := new byte[newalsize](i reads src => if 0 <= i < src.Length then src[i] else NUL);
      assert dst[..npos] == src[..npos];
      query_statement, str_alsize := dst, newalsize;
    }

    /** `CVT_APPEND_CHAR` */
    method AppendChar(c: byte)
      requires Valid()
      modifies this, query_statement
      ensures Valid() && (query_statement == old(query_statement) || fresh(query_statement))
      ensures Contents() == old(Contents()) + [c]
    {
      if npos + 1 >= str_alsize {
        Enlarge(npos + 1);
      }
      query_statement[npos] := c;
      npos := npos + 1;
    }

    /** `CVT_APPEND_DATA` */
    method AppendData(s: seq<byte>)
      requires Valid()
      modifies this, query_statement
      ensures Valid() && (query_statement == old(query_statement) || fresh(query_statement))
      ensures Contents() == old(Contents()) + s
      ensures query_statement[npos] == NUL
    {
      var newpos := npos + |s|;
      if newpos >= str_alsize {
        Enlarge(newpos);
      }
      forall i | npos <= i < newpos {
        query_statement[i] := s[i - npos];
      }
      npos := newpos;
      query_statement[npos] := NUL;
    }
  }
}
