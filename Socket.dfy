/**
 * The client socket as handle_request sees it through read(2): a sequence of
 * deliveries, each either some bytes or an error. read(2) returns part or all
 * of the next delivery, -1 for an error, and 0 once the peer has closed.
 */
module Socket {
  import opened CLib

  /** What the peer's side of the connection hands the next read(2). */
  datatype Delivery = Data(bytes: string) | Failure

  /** A read never returns 0 bytes while the connection is open, so no delivery is empty. */
  predicate WellFormed(pending: seq<Delivery>)
  {
    forall k :: 0 <= k < |pending| ==> (pending[k].Data? ==> pending[k].bytes != [])
  }

  /** The bytes a reader receives, in order, before the first error. */
  function Stream(pending: seq<Delivery>): string
    decreases |pending|
  {
    if pending == [] then []
    else match pending[0]
      case Failure => []
      case Data(b) => b + Stream(pending[1..])
  }

  /** The connection reports an error at some point: the stream does not end with a close. */
  predicate Fails(pending: seq<Delivery>)
    decreases |pending|
  {
    pending != [] && (pending[0].Failure? || Fails(pending[1..]))
  }

  /** The result of one read(2): its return value, the bytes it stored, and what is left. */
  datatype ReadStep = ReadStep(count: int, data: string, after: seq<Delivery>)

  /**
   * read(fd, buf, n): an error yields -1 and leaves the error in place; a close
   * yields 0; otherwise at most `n` bytes of the next delivery are returned and
   * the remainder of that delivery stays for the next call.
   */
  function ReadFrom(pending: seq<Delivery>, n: nat): (r: ReadStep)
    requires n > 0
    ensures r.count == -1 <==> pending != [] && pending[0].Failure?
    ensures r.count == -1 ==> r.data == [] && r.after == pending
    ensures r.count >= 0 ==> r.count == |r.data| <= n
    ensures r.count >= 0 ==> Stream(pending) == r.data + Stream(r.after)
    ensures r.count >= 0 ==> (Fails(r.after) <==> Fails(pending))
    ensures WellFormed(pending) ==> WellFormed(r.after)
    ensures WellFormed(pending) ==> (r.count == 0 <==> pending == [])
  {
    if pending == [] then ReadStep(0, [], pending)
    else match pending[0]
      case Failure => ReadStep(-1, [], pending)
      case Data(b) =>
        if |b| <= n then
          assert Stream(pending) == b + Stream(pending[1..]);
          ReadStep(|b|, b, pending[1..])
        else
          var after := [Data(b[n..])] + pending[1..];
          assert after[1..] == pending[1..];
          assert Stream(pending) == b[..n] + Stream(after) by {
            assert b == b[..n] + b[n..];
          }
          ReadStep(n, b[..n], after)
  }

  /** The buffer `s` once read(2) has stored `d` at offset `off`. */
  function Patched(s: string, off: nat, d: string): (p: string)
    requires off + |d| <= |s|
    ensures |p| == |s|
    ensures p[..off + |d|] == s[..off] + d
    ensures forall m :: 0 <= m < |s| ==> p[m] == if off <= m < off + |d| then d[m - off] else s[m]
  {
    s[..off] + d + s[off + |d|..]
  }

  /** The accepted client socket; `pending` is everything the peer will still deliver. */
  class Connection {
    var pending: seq<Delivery>

    ghost predicate Valid()
      reads this
    {
      WellFormed(pending)
    }

    constructor (deliveries: seq<Delivery>)
      requires WellFormed(deliveries)
      ensures Valid() && pending == deliveries
    {
      pending := deliveries;
    }

    /** read(fd, buf + off, n): stores the bytes read at `buf[off..]` and nothing else. */
    method Read(buf: array<char>, off: nat, n: nat) returns (count: int)
      requires Valid() && 0 < n && off + n <= buf.Length
      modifies this, buf
      ensures Valid()
      ensures var r := ReadFrom(old(pending), n); count == r.count && pending == r.after
      ensures buf[..] == Patched(old(buf[..]), off, ReadFrom(old(pending), n).data)
    {
      var r := ReadFrom(pending, n);
      ghost var before := buf[..];
      forall m | off <= m < off + |r.data| {
        buf[m] := r.data[m - off];
      }
      assert buf[..] == Patched(before, off, r.data);
      pending := r.after;
      count := r.count;
    }
  }
}
