/** The parts of `std::io` the library uses: a byte sink (`Write::write_all`)
    and a byte source (`Read::read_exact`, `BufRead::fill_buf`).  These are
    environment models, not part of the library itself. */
module Io {
  import opened Ints
  import opened Results

  datatype IoError =
    | UnexpectedEof          // `read_exact` ran out of input
    | StorageFull            // the sink accepted fewer bytes than were written
    | Other(message: string) // `io::Error::new(ErrorKind::Other, message)`

  /** Whether `a` is a prefix of `b`. */
  predicate IsPrefix<T(==)>(a: seq<T>, b: seq<T>)
  {
    |a| <= |b| && a == b[..|a|]
  }

  /** A sink that holds everything written to it.  With a capacity it behaves
      like a full disk: a `write_all` that does not fit stores what fits and
      fails with `StorageFull`. */
  class Writer {
    var data: seq<uint8>
    const capacity: Option<nat>

    ghost predicate Valid()
      reads this
    {
      capacity.Some? ==> |data| <= capacity.value
    }

    constructor (capacity: Option<nat>)
      ensures Valid() && data == [] && this.capacity == capacity
    {
      data := [];
      this.capacity := capacity;
    }

    /** Whether `n` more bytes fit. */
    predicate Fits(n: nat)
      reads this
    {
      capacity.None? || |data| + n <= capacity.value
    }

    /** How many of `n` written bytes are kept. */
    function Accepted(n: nat): (k: nat)
      reads this
      requires Valid()
      ensures k <= n && (k == n <==> Fits(n))
    {
      if Fits(n) then n else capacity.value - |data|
    }

    /** How many of `n` bytes written after `baseLen` bytes the sink keeps. */
    function Kept(baseLen: nat, n: nat): (k: nat)
      ensures k <= n
      ensures capacity.None? ==> k == n
    {
      if capacity.None? || baseLen + n <= capacity.value then n
      else if baseLen <= capacity.value then capacity.value - baseLen
      else 0
    }

    /** What the sink holds after writing the planned output `out` behind
        `base`: all of it with `Ok`, and with `Err` the part it keeps, which
        falls short of `out`. */
    ghost predicate Outcome(base: seq<uint8>, out: seq<uint8>, r: Result<(), IoError>)
      reads this
    {
      && (r.Ok? ==> data == base + out)
      && (r.Err? ==> (r.error == StorageFull && Kept(|base|, |out|) < |out|
          && data == base + out[..Kept(|base|, |out|)]))
    }

    /** `write_all` of the part `out[n..n + |chunk|]` of a planned output `out`,
        after `base` and the first `n` bytes of `out` went through whole.  If it
        fails, the sink holds exactly what it keeps of the whole of `out`. */
    method WriteAllOf(ghost base: seq<uint8>, ghost out: seq<uint8>, ghost n: nat, chunk: seq<uint8>)
      returns (r: Result<(), IoError>)
      requires Valid() && n + |chunk| <= |out| && chunk == out[n..n + |chunk|]
      requires data == base + out[..n]
      modifies this
      ensures Valid()
      ensures r.Ok? ==> data == base + out[..n + |chunk|]
      ensures r.Err? ==> r.error == StorageFull && Kept(|base|, |out|) < |out|
      ensures r.Err? ==> data == base + out[..Kept(|base|, |out|)]
    {
      r := WriteAll(chunk);
      if r.Err? {
        assert data == base + out[..n] + chunk[..Kept(|base|, |out|) - n];
        assert out[..n] + chunk[..Kept(|base|, |out|) - n] == out[..Kept(|base|, |out|)];
      } else {
        assert out[..n] + chunk == out[..n + |chunk|];
      }
    }

    method WriteAll(bytes: seq<uint8>) returns (r: Result<(), IoError>)
      requires Valid()
      modifies this
      ensures Valid()
      ensures r.Ok? <==> old(Fits(|bytes|))
      ensures r.Err? ==> r.error == StorageFull
      ensures data == old(data) + bytes[..old(Accepted(|bytes|))]
    {
      var k := Accepted(|bytes|);
      r := if Fits(|bytes|) then Ok(()) else Err(StorageFull);
      data := data + bytes[..k];
    }
  }

  /** The outcome of writing `out` behind `base + head`, where `head` went
      through whole, is the outcome of writing `head + out` behind `base`. */
  lemma OutcomeAfter(w: Writer, base: seq<uint8>, head: seq<uint8>, out: seq<uint8>, r: Result<(), IoError>)
    requires w.capacity.Some? ==> |base| + |head| <= w.capacity.value
    requires w.Outcome(base + head, out, r)
    ensures w.Outcome(base, head + out, r)
  {
    if r.Ok? {
      assert base + head + out == base + (head + out);
    } else {
      var k := w.Kept(|base + head|, |out|);
      assert w.Kept(|base|, |head + out|) == |head| + k;
      assert (head + out)[..|head| + k] == head + out[..k];
      assert base + head + out[..k] == base + (head + out[..k]);
    }
  }

  /** The bytes a buffered reader exposes without consuming them. */
  function Peek(input: seq<uint8>, pos: nat, bufferSize: nat): seq<uint8>
    requires pos <= |input|
  {
    if pos + bufferSize <= |input| then input[pos..pos + bufferSize] else input[pos..]
  }

  /** A source reading from a fixed byte sequence; `fault` makes every read fail. */
  class Reader {
    const input: seq<uint8>
    var pos: nat
    const fault: Option<IoError>
    const bufferSize: nat

    ghost predicate Valid()
      reads this
    {
      pos <= |input|
    }

    constructor (input: seq<uint8>, fault: Option<IoError>, bufferSize: nat)
      ensures Valid() && pos == 0
      ensures this.input == input && this.fault == fault && this.bufferSize == bufferSize
    {
      this.input := input;
      this.fault := fault;
      this.bufferSize := bufferSize;
      pos := 0;
    }

    /** `Read::read_exact` for `n` bytes. */
    method ReadExact(n: nat) returns (r: Result<seq<uint8>, IoError>)
      requires Valid()
      modifies this
      ensures Valid()
      ensures fault.Some? ==> r == Err(fault.value) && pos == old(pos)
      ensures fault.None? && old(pos) + n <= |input| ==>
                r == Ok(input[old(pos)..old(pos) + n]) && pos == old(pos) + n
      ensures fault.None? && old(pos) + n > |input| ==> r == Err(UnexpectedEof) && pos == |input|
    {
      if fault.Some? {
        r := Err(fault.value);
      } else if pos + n <= |input| {
        r := Ok(input[pos..pos + n]);
        pos := pos + n;
      } else {
        r := Err(UnexpectedEof);
        pos := |input|;
      }
    }

    /** `BufRead::fill_buf`: the buffered bytes, without consuming them. */
    method FillBuf() returns (r: Result<seq<uint8>, IoError>)
      requires Valid()
      ensures fault.Some? ==> r == Err(fault.value)
      ensures fault.None? ==> r == Ok(Peek(input, pos, bufferSize))
    {
      if fault.Some? {
        r := Err(fault.value);
      } else {
        r := Ok(Peek(input, pos, bufferSize));
      }
    }
  }
}
