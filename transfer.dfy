/** How the transport uses the chunk callbacks: a POST body is drained by
    repeated pulls of the read callback, and a buffered response is
    accumulated by the write callback. The transport itself is not modelled:
    the sizes of its pulls and the pieces it delivers are parameters. */
module Transfer {
  import opened CText
  import opened Chunks

  /** The bytes handed out by successive pulls of the given sizes. */
  function DrainPieces(pending: seq<Char>, pulls: seq<nat>): (pieces: seq<seq<Char>>)
    ensures |pieces| == |pulls|
  {
    if pulls == [] then []
    else
      var piece := ReadPiece(pending, pulls[0]);
      [piece] + DrainPieces(pending[|piece|..], pulls[1..])
  }

  /** What is still pending after those pulls. */
  function DrainRest(pending: seq<Char>, pulls: seq<nat>): seq<Char> {
    if pulls == [] then pending
    else DrainRest(pending[Min(|pending|, pulls[0])..], pulls[1..])
  }

  /** Nothing is lost or reordered: the pieces handed out, followed by what is
      still pending, are exactly the original bytes, whatever the pull sizes. */
  lemma {:induction false} DrainReproduces(pending: seq<Char>, pulls: seq<nat>)
    ensures Flatten(DrainPieces(pending, pulls)) + DrainRest(pending, pulls) == pending
  {
    if pulls != [] {
      var piece := ReadPiece(pending, pulls[0]);
      DrainReproduces(pending[|piece|..], pulls[1..]);
      assert pending == piece + pending[|piece|..];
    }
  }

  /** Pulls that together allow at least the pending byte count leave
      nothing pending. */
  lemma {:induction false} DrainEmpties(pending: seq<Char>, pulls: seq<nat>)
    requires |pending| <= Sum(pulls)
    ensures DrainRest(pending, pulls) == []
  {
    if pulls == [] {
      assert pending == [];
    } else {
      DrainEmpties(pending[Min(|pending|, pulls[0])..], pulls[1..]);
    }
  }

  /** Hence such pulls hand out exactly the original bytes. */
  lemma DrainCompletes(pending: seq<Char>, pulls: seq<nat>)
    requires |pending| <= Sum(pulls)
    ensures Flatten(DrainPieces(pending, pulls)) == pending
  {
    DrainReproduces(pending, pulls);
    DrainEmpties(pending, pulls);
  }

  lemma {:induction false} SumOfPositives(pulls: seq<nat>)
    requires forall i | 0 <= i < |pulls| :: pulls[i] > 0
    ensures Sum(pulls) >= |pulls|
  {
    if pulls != [] {
      SumOfPositives(pulls[1..]);
    }
  }

  /** As many non-empty pulls as there are bytes always suffice. */
  lemma PositivePullsComplete(pending: seq<Char>, pulls: seq<nat>)
    requires forall i | 0 <= i < |pulls| :: pulls[i] > 0
    requires |pending| <= |pulls|
    ensures Flatten(DrainPieces(pending, pulls)) == pending
  {
    SumOfPositives(pulls);
    DrainCompletes(pending, pulls);
  }

  /** Once nothing is pending, every further pull hands out nothing. */
  lemma {:induction false} ExhaustedStaysEmpty(pulls: seq<nat>)
    ensures forall i | 0 <= i < |pulls| :: DrainPieces([], pulls)[i] == []
    ensures DrainRest([], pulls) == []
  {
    if pulls != [] {
      ExhaustedStaysEmpty(pulls[1..]);
      assert DrainPieces([], pulls) == [[]] + DrainPieces([], pulls[1..]);
    }
  }

  /** One more pull extends the pieces by what that pull hands out. */
  lemma {:induction false} DrainSnoc(pending: seq<Char>, pulls: seq<nat>, last: nat)
    ensures DrainPieces(pending, pulls + [last])
         == DrainPieces(pending, pulls) + [ReadPiece(DrainRest(pending, pulls), last)]
    ensures DrainRest(pending, pulls + [last])
         == DrainRest(pending, pulls)[Min(|DrainRest(pending, pulls)|, last)..]
  {
    if pulls == [] {
      assert [] + [last] == [last];
    } else {
      assert (pulls + [last])[1..] == pulls[1..] + [last];
      DrainSnoc(pending[Min(|pending|, pulls[0])..], pulls[1..], last);
    }
  }

  /** The step that a loop over the pulls takes. */
  lemma DrainStep(pending: seq<Char>, pulls: seq<nat>, i: nat)
    requires i < |pulls|
    ensures Flatten(DrainPieces(pending, pulls[..i + 1]))
         == Flatten(DrainPieces(pending, pulls[..i])) + ReadPiece(DrainRest(pending, pulls[..i]), pulls[i])
    ensures DrainRest(pending, pulls[..i + 1])
         == DrainRest(pending, pulls[..i])[|ReadPiece(DrainRest(pending, pulls[..i]), pulls[i])|..]
  {
    assert pulls[..i + 1] == pulls[..i] + [pulls[i]];
    DrainSnoc(pending, pulls[..i], pulls[i]);
    FlattenAppend(DrainPieces(pending, pulls[..i]), [ReadPiece(DrainRest(pending, pulls[..i]), pulls[i])]);
  }

  /** The request-body half of do_curl_post: a stack chunk is initialised from
      the body, the declared POST size is its `size`, the read cursor is set,
      the transport pulls |pulls| times, each with a buffer of the size it
      names, and the chunk is freed. The result is what was sent. */
  method PostBody(body: CStr, pulls: seq<nat>) returns (sent: seq<Char>, postFieldSize: nat)
    ensures postFieldSize == |body|
    ensures sent == Flatten(DrainPieces(body, pulls))
    ensures |body| <= Sum(pulls) ==> sent == body
  {
    var c := new Chunk.Zeroed();
    c.Init(body);
    postFieldSize := c.size;
    c.ReadInit();
    sent := [];
    var i := 0;
    while i < |pulls|
      invariant 0 <= i <= |pulls|
      invariant c.Readable()
      invariant sent == Flatten(DrainPieces(body, pulls[..i]))
      invariant c.Pending() == DrainRest(body, pulls[..i])
    {
      ghost var rest := c.Pending();
      var buffer := new Char[pulls[i]];
      var n := c.ReadCallback(buffer, 1, pulls[i]);
      assert 1 * pulls[i] == pulls[i];
      assert buffer[..n] == ReadPiece(rest, pulls[i]);
      assert c.Pending() == rest[n..];
      DrainStep(body, pulls, i);
      sent := sent + buffer[..n];
      i := i + 1;
    }
    assert pulls[..i] == pulls;
    c.Free();
    if |body| <= Sum(pulls) {
      DrainCompletes(body, pulls);
    }
  }

  /** The buffered-response path of get_openam_session_token: a chunk made by
      chunk_new receives each delivered piece through the write callback; the
      result is the accumulated bytes and their count. */
  method ReceiveResponse(pieces: seq<seq<Char>>) returns (response: seq<Char>, total: nat)
    ensures response == Flatten(pieces)
    ensures total == |response|
  {
    var c := new Chunk.Zeroed();
    c.New();
    var i := 0;
    while i < |pieces|
      invariant 0 <= i <= |pieces|
      invariant c.Valid() && c.data != null
      invariant c.Received() == Flatten(pieces[..i])
    {
      var piece := pieces[i];
      var bytes := c.WriteCallback(piece, 1, |piece|);
      assert pieces[..i + 1] == pieces[..i] + [piece];
      FlattenAppend(pieces[..i], [piece]);
      i := i + 1;
    }
    assert pieces[..i] == pieces;
    response := c.data[..c.size];
    total := c.size;
    c.Free();
  }
}
