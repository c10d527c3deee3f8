/** The sending application of examples/tcp/tcp-large-transfer.cc over a socket that takes any
    number of bytes, or none, or refuses, at each call. */
module LargeTransfer {
  const TOTAL_TX_BYTES: nat := 2000000
  const WRITE_SIZE: nat := 1040

  // The k-th byte of the stream: 'a' to 'z' over and over.
  function Letter(k: nat): nat { 97 + k % 26 }

  ghost predicate IsStream(s: seq<nat>) { forall k :: 0 <= k < |s| ==> s[k] == Letter(k) }

  // One call of Send: how much had been accepted, the space that was free, and what was offered.
  datatype Request = Request(position: nat, space: nat, from: nat, size: nat)

  // What is offered starts at the position in the buffer and is as much as the buffer still holds,
  // as is left to send, and as there is space for.
  ghost predicate Offered(r: Request) {
    && r.from == r.position % 1040 && r.position < 2000000
    && r.size <= 1040 - r.from && r.size <= 2000000 - r.position && r.size <= r.space
    && (r.size == 1040 - r.from || r.size == 2000000 - r.position || r.size == r.space)
  }

  // The TCP socket: what it has accepted so far, its free buffer space, and its Close calls; and how
  // often it will still take nothing without refusing, which is any number of times but not for ever.
  class Socket {
    var txAvailable: nat
    ghost var accepted: seq<nat>
    ghost var requests: seq<Request>
    var refused: bool
    var closed: nat
    var stalls: nat

    constructor (space: nat, stalls: nat)
      ensures txAvailable == space && accepted == [] && requests == [] && closed == 0 && this.stalls == stalls
    {
      txAvailable, accepted, requests, refused, closed := space, [], [], false, 0;
      this.stalls := stalls;
    }

    // Send(&data[from], size): a negative result, or 0..size bytes accepted from there on; the
    // space left afterwards is any number.
    method Send(data: array<nat>, from: nat, size: nat) returns (amount: int)
      requires size > 0 && from + size <= data.Length
      modifies this`accepted, this`requests, this`txAvailable, this`refused, this`stalls
      ensures requests == old(requests) + [Request(old(|accepted|), old(txAvailable), from, size)]
      ensures amount <= size && (refused <==> amount < 0)
      ensures if amount == 0 then stalls < old(stalls) else stalls == old(stalls)
      ensures accepted == old(accepted) + if amount < 0 then [] else data[from..from + amount]
    {
      var offered: int := *;
      amount := if offered < 0 || (offered == 0 && stalls == 0) then -1 else if offered > size then size else offered;
      stalls := if amount == 0 then stalls - 1 else stalls;
      requests := requests + [Request(|accepted|, txAvailable, from, size)];
      refused := amount < 0;
      var space: int := *;
      txAvailable := if space < 0 then 0 else space;
      accepted := accepted + if amount < 0 then [] else data[from..from + amount];
    }
  }

  class Sender {
    var currentTxBytes: nat
    const data: array<nat>

    // The letters are laid out so that offset k of the buffer holds the k-th letter.
    constructor ()
      ensures currentTxBytes == 0 && fresh(data) && data.Length == WRITE_SIZE && IsStream(data[..])
    {
      currentTxBytes := 0;
      data := new nat[WRITE_SIZE];
      new;
      for i := 0 to WRITE_SIZE
        invariant currentTxBytes == 0 && forall k :: 0 <= k < i ==> data[k] == Letter(k)
      {
        data[i] := 97 + i % 26;
      }
    }

    ghost predicate Valid(socket: Socket) reads this, data, socket {
      && data.Length == WRITE_SIZE && IsStream(data[..])
      && currentTxBytes == |socket.accepted| <= TOTAL_TX_BYTES
      && IsStream(socket.accepted)
      && (socket.closed > 0 ==> currentTxBytes == TOTAL_TX_BYTES)
      && forall k :: 0 <= k < |socket.requests| ==> Offered(socket.requests[k])
    }

    // Ends on every socket that does not take nothing for ever; the stream only grows, each byte is the right letter,
    // and Close is called exactly when everything has been accepted. If something is left, the
    // socket is full or has just refused.
    method WriteUntilBufferFull(socket: Socket)
      requires Valid(socket)
      modifies this`currentTxBytes, socket
      ensures Valid(socket) && old(socket.accepted) <= socket.accepted
      ensures old(socket.requests) <= socket.requests
      ensures forall k :: 0 <= k < |socket.requests| ==> Offered(socket.requests[k])
      ensures currentTxBytes == |socket.accepted| <= 2000000
      ensures forall k :: 0 <= k < |socket.accepted| ==> socket.accepted[k] == 'a' as int + k % 26
      ensures socket.closed == old(socket.closed) + if |socket.accepted| == 2000000 then 1 else 0
      ensures currentTxBytes < TOTAL_TX_BYTES ==> socket.txAvailable == 0 || socket.refused
    {
      while currentTxBytes < TOTAL_TX_BYTES && socket.txAvailable > 0
        invariant Valid(socket) && old(socket.accepted) <= socket.accepted && socket.closed == old(socket.closed)
        invariant old(socket.requests) <= socket.requests
        decreases TOTAL_TX_BYTES - currentTxBytes, socket.stalls
      {
        var left := TOTAL_TX_BYTES - currentTxBytes;
        var dataOffset := currentTxBytes % WRITE_SIZE;
        var toWrite := WRITE_SIZE - dataOffset;
        toWrite := if left < toWrite then left else toWrite;
        toWrite := if socket.txAvailable < toWrite then socket.txAvailable else toWrite;
        ghost var before := socket.accepted;
        var amountSent := socket.Send(data, dataOffset, toWrite);
        if amountSent < 0 {
          return;
        }
        SliceContinues(data[..], before, amountSent);
        assert data[dataOffset..dataOffset + amountSent] == data[..][dataOffset..dataOffset + amountSent];
        currentTxBytes := currentTxBytes + amountSent;
      }
      if currentTxBytes >= TOTAL_TX_BYTES {
        socket.closed := socket.closed + 1;
      }
    }

    // Every schedule of callbacks, each finding any amount of free space and a socket that may take
    // nothing any number of times.
    method RunFlow(socket: Socket, callbacks: seq<(nat, nat)>)
      requires Valid(socket)
      modifies this`currentTxBytes, socket
      ensures Valid(socket) && old(socket.accepted) <= socket.accepted
      ensures |socket.accepted| <= 2000000
      ensures forall k :: 0 <= k < |socket.accepted| ==> socket.accepted[k] == 'a' as int + k % 26
    {
      for i := 0 to |callbacks|
        invariant Valid(socket) && old(socket.accepted) <= socket.accepted
      {
        socket.txAvailable, socket.stalls := callbacks[i].0, callbacks[i].1;
        WriteUntilBufferFull(socket);
      }
    }
  }

  // A piece taken from the buffer at the stream position modulo the write size continues the stream.
  lemma SliceContinues(data: seq<nat>, sent: seq<nat>, n: nat)
    requires |data| == WRITE_SIZE && IsStream(data) && IsStream(sent) && |sent| % WRITE_SIZE + n <= WRITE_SIZE
    ensures IsStream(sent + data[|sent| % WRITE_SIZE..|sent| % WRITE_SIZE + n])
  {
    var o, q := |sent| % WRITE_SIZE, |sent| / WRITE_SIZE;
    var r := sent + data[o..o + n];
    forall k: nat | k < |r| ensures r[k] == Letter(k) {
      if k >= |sent| {
        var j := o + (k - |sent|);
        assert r[k] == data[j] && k == 26 * (40 * q) + j;
        ModMultiple(40 * q, j);
      }
    }
  }

  lemma {:induction false} ModMultiple(q: nat, r: nat)
    ensures (26 * q + r) % 26 == r % 26
  {
    if q > 0 {
      ModMultiple(q - 1, r);
      assert 26 * q + r == (26 * (q - 1) + r) + 26;
    }
  }

  // Reusing the buffer from its start continues the letters exactly when its size is a multiple of 26.
  lemma SeamlessIff(size: nat)
    requires size > 0
    ensures (forall k: nat :: Letter(k % size) == Letter(k)) <==> size % 26 == 0
  {
    if forall k: nat :: Letter(k % size) == Letter(k) {
      assert Letter(size % size) == Letter(size);
    }
    if size % 26 == 0 {
      forall k: nat ensures Letter(k % size) == Letter(k) {
        SeamlessAt(size, k);
      }
    }
  }

  lemma SeamlessAt(size: nat, k: nat)
    requires size > 0 && size % 26 == 0
    ensures Letter(k % size) == Letter(k)
  {
    hide Letter;
    var m, _ := DivMod(size, 26);
    var q, r := DivMod(k, size);
    WholeBuffers(size, m, k, q, r);
  }

  lemma DivMod(k: nat, n: nat) returns (q: nat, r: nat)
    requires n > 0
    ensures k == n * q + r && r == k % n
  {
    q, r := k / n, k % n;
  }

  lemma WholeBuffers(size: nat, m: nat, k: nat, q: nat, r: nat)
    requires size == 26 * m && k == size * q + r
    ensures Letter(k) == Letter(r)
  {
    assert size * q == 26 * (m * q);
    ModMultiple(m * q, r);
  }
}
