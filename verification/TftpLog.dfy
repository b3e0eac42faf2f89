/**
  What a client has got to see while it opened a file: when it was told the
  size, and when it was told too late.
 */
module TftpLog {
  import opened TftpPeer

  predicate IsData(r: Reply) {
    r.Arrived? && r.packet.Data?
  }

  /** Neither data nor an option acknowledgement nor an error. */
  predicate IsStray(r: Reply) {
    r.Arrived? && r.packet.OtherPacket?
  }

  predicate Sizes(m: OackMessage) {
    exists o :: o in m.options && o.Tsize?
  }

  /** An option acknowledgement with the size of the file. */
  predicate TellsSize(r: Reply) {
    r.Arrived? && r.packet.Oack? && Sizes(r.packet.message)
  }

  ghost predicate NoData(log: seq<Reply>) {
    forall i :: 0 <= i < |log| ==> !IsData(log[i])
  }

  /** The size is told before any data. */
  ghost predicate ToldAt(log: seq<Reply>, j: nat) {
    j < |log| && TellsSize(log[j]) && NoData(log[..j])
  }

  ghost predicate Told(log: seq<Reply>) {
    exists j: nat :: ToldAt(log, j)
  }

  /** The first stray packet comes before the size is told. */
  ghost predicate StrayFirst(log: seq<Reply>, i: nat) {
    i < |log| && IsStray(log[i]) && forall k :: 0 <= k < i ==> !TellsSize(log[k])
  }

  /** The size is told before any data, but behind a stray packet. */
  ghost predicate Late(log: seq<Reply>) {
    exists i: nat, j: nat :: i < j && StrayFirst(log, i) && ToldAt(log, j)
  }

  ghost predicate StrayOnlyLast(log: seq<Reply>) {
    forall i :: 0 <= i < |log| - 1 ==> !IsStray(log[i])
  }

  lemma NoDataConcat(x: seq<Reply>, y: seq<Reply>)
    ensures NoData(x + y) <==> NoData(x) && NoData(y)
  {
    if NoData(x + y) {
      assert forall i :: 0 <= i < |x| ==> x[i] == (x + y)[i];
      assert forall i :: 0 <= i < |y| ==> y[i] == (x + y)[|x| + i];
    }
  }

  lemma ToldConcat(x: seq<Reply>, y: seq<Reply>)
    ensures Told(x + y) <==> Told(x) || (NoData(x) && Told(y))
  {
    if j: nat :| ToldAt(x, j) {
      assert (x + y)[..j] == x[..j];
      assert ToldAt(x + y, j);
    }
    if j: nat :| NoData(x) && ToldAt(y, j) {
      assert (x + y)[..|x| + j] == x + y[..j];
      NoDataConcat(x, y[..j]);
      assert ToldAt(x + y, |x| + j);
    }
    if j: nat :| ToldAt(x + y, j) {
      ToldInOne(x, y, j);
    }
  }

  lemma ToldInOne(x: seq<Reply>, y: seq<Reply>, j: nat)
    requires ToldAt(x + y, j)
    ensures if j < |x| then ToldAt(x, j) else NoData(x) && ToldAt(y, j - |x|)
  {
    if j < |x| {
      assert (x + y)[..j] == x[..j];
    } else {
      assert (x + y)[..j] == x + y[..j - |x|];
      NoDataConcat(x, y[..j - |x|]);
    }
  }

  lemma ToldByOne(r: Reply)
    ensures Told([r]) <==> TellsSize(r)
    ensures NoData([r]) <==> !IsData(r)
  {
    if TellsSize(r) {
      assert ToldAt([r], 0);
    }
    if NoData([r]) {
      assert !IsData([r][0]);
    }
  }

  /** Told during the first fill is told in time. */
  lemma ToldInTime(log: seq<Reply>)
    requires StrayOnlyLast(log)
    ensures !Late(log)
  {
  }

  /** What is told while the file is being measured is late, and nothing else is. */
  lemma ToldWhileMeasuring(fill: seq<Reply>, measuring: seq<Reply>)
    requires StrayOnlyLast(fill) && !Told(fill)
    requires NoData(fill) ==> fill != [] && IsStray(fill[|fill| - 1])
    ensures Late(fill + measuring) <==> NoData(fill) && Told(measuring)
  {
    var log := fill + measuring;
    if NoData(fill) && Told(measuring) {
      var j: nat :| ToldAt(measuring, j);
      var i := |fill| - 1;
      forall k | 0 <= k < i ensures !TellsSize(log[k]) {
        if TellsSize(log[k]) {
          assert ToldAt(fill, k);
        }
      }
      assert StrayFirst(log, i);
      assert log[..|fill| + j] == fill + measuring[..j];
      NoDataConcat(fill, measuring[..j]);
      assert ToldAt(log, |fill| + j);
    }
    if i: nat, j: nat :| i < j && StrayFirst(log, i) && ToldAt(log, j) {
      ToldInOne(fill, measuring, j);
    }
  }

  // ----- transfers the client leaves behind

  /** An option acknowledgement the client agrees to. */
  predicate IsAgreed(r: Reply) {
    r.Arrived? && r.packet.Oack? && Agreeable(r.packet.message)
  }

  /** The client agrees before any data. */
  ghost predicate AgreesAt(log: seq<Reply>, i: nat) {
    i < |log| && IsAgreed(log[i]) && NoData(log[..i])
  }

  ghost predicate Agrees(log: seq<Reply>) {
    exists i: nat :: AgreesAt(log, i)
  }

  /** A silence before any data, when the client has agreed to the options. */
  ghost predicate StrandedAt(log: seq<Reply>, agreed: bool, j: nat) {
    j < |log| && log[j].Timeout? && NoData(log[..j]) && (agreed || Agrees(log[..j]))
  }

  ghost predicate Stranded(log: seq<Reply>, agreed: bool) {
    exists j: nat :: StrandedAt(log, agreed, j)
  }

  lemma AgreesConcat(x: seq<Reply>, y: seq<Reply>)
    ensures Agrees(x + y) <==> Agrees(x) || (NoData(x) && Agrees(y))
  {
    if i: nat :| AgreesAt(x, i) {
      assert (x + y)[..i] == x[..i];
      assert AgreesAt(x + y, i);
    }
    if i: nat :| NoData(x) && AgreesAt(y, i) {
      assert (x + y)[..|x| + i] == x + y[..i];
      NoDataConcat(x, y[..i]);
      assert AgreesAt(x + y, |x| + i);
    }
    if i: nat :| AgreesAt(x + y, i) {
      if i < |x| {
        assert (x + y)[..i] == x[..i];
        assert AgreesAt(x, i);
      } else {
        assert (x + y)[..i] == x + y[..i - |x|];
        NoDataConcat(x, y[..i - |x|]);
        assert AgreesAt(y, i - |x|);
      }
    }
  }

  lemma StrandedConcat(x: seq<Reply>, y: seq<Reply>, agreed: bool)
    ensures Stranded(x + y, agreed) <==> Stranded(x, agreed) || (NoData(x) && Stranded(y, agreed || Agrees(x)))
  {
    if j: nat :| StrandedAt(x, agreed, j) {
      assert (x + y)[..j] == x[..j];
      assert StrandedAt(x + y, agreed, j);
    }
    var agrees := agreed || Agrees(x);
    if j: nat :| NoData(x) && StrandedAt(y, agrees, j) {
      assert (x + y)[..|x| + j] == x + y[..j];
      NoDataConcat(x, y[..j]);
      AgreesConcat(x, y[..j]);
      assert StrandedAt(x + y, agreed, |x| + j);
    }
    if j: nat :| StrandedAt(x + y, agreed, j) {
      if j < |x| {
        assert (x + y)[..j] == x[..j];
        assert StrandedAt(x, agreed, j);
      } else {
        assert (x + y)[..j] == x + y[..j - |x|];
        NoDataConcat(x, y[..j - |x|]);
        AgreesConcat(x, y[..j - |x|]);
        assert StrandedAt(y, agreed || Agrees(x), j - |x|);
      }
    }
  }

  lemma StrandedByOne(r: Reply, agreed: bool)
    ensures Stranded([r], agreed) <==> agreed && r.Timeout?
    ensures Agrees([r]) <==> IsAgreed(r)
  {
    assert [r][..0] == [];
    if agreed && r.Timeout? {
      assert StrandedAt([r], agreed, 0);
    }
    if IsAgreed(r) {
      assert AgreesAt([r], 0);
    }
  }

  lemma NothingStranded(agreed: bool)
    ensures !Stranded([], agreed) && !Agrees([])
  {
  }
}
