/** The handshakes of NtripClient::Run and NtripServer::Run: they poll for the caster's
    reply at most 30 times. */
module Handshake {
  import opened Text

  /** One call of `recv`: some text, end of stream, or nothing yet. */
  datatype Poll = Chunk(text: string) | Closed | Nothing

  const TIMEOUT := 30

  predicate Accepts(text: string) {
    Contains(text, "HTTP/1.1 200 OK") || Contains(text, "ICY 200 OK")
  }

  predicate IsAcceptance(p: Poll) {
    p.Chunk? && Accepts(p.text)
  }

  /** Poll `j` brings the acceptance: neither it nor the end of the stream came before. */
  ghost predicate AcceptedAt(polls: nat -> Poll, j: nat) {
    IsAcceptance(polls(j)) && forall i | 0 <= i < j :: !IsAcceptance(polls(i)) && !polls(i).Closed?
  }

  /** The acceptance comes with one of the first 29 polls. The 30th poll is made, but its
      answer is not believed: the counter is 0 by then. */
  ghost predicate Succeeds(polls: nat -> Poll) {
    exists j | 0 <= j < TIMEOUT - 1 :: AcceptedAt(polls, j)
  }

  /** The acceptance comes with one of the 30 polls, be it believed or not. */
  ghost predicate Answered(polls: nat -> Poll) {
    exists j | 0 <= j < TIMEOUT :: AcceptedAt(polls, j)
  }

  ghost predicate Quiet(polls: nat -> Poll, j: nat) {
    forall i | 0 <= i < j :: !IsAcceptance(polls(i)) && !polls(i).Closed?
  }

  lemma QuietStep(polls: nat -> Poll, j: nat)
    requires Quiet(polls, j)
    ensures IsAcceptance(polls(j)) ==> (Succeeds(polls) <==> j < TIMEOUT - 1) && (Answered(polls) <==> j < TIMEOUT)
    ensures polls(j).Closed? && j < TIMEOUT ==> !Succeeds(polls) && !Answered(polls)
    ensures !IsAcceptance(polls(j)) && !polls(j).Closed? ==> Quiet(polls, j + 1)
  {
    hide Accepts;
    assert IsAcceptance(polls(j)) ==> AcceptedAt(polls, j);
  }

  lemma QuietEnd(polls: nat -> Poll)
    ensures Quiet(polls, 0)
    ensures Quiet(polls, TIMEOUT) ==> !Succeeds(polls) && !Answered(polls)
  {
  }

  /** Success, in full: one of the first 29 polls brings one of the two texts, and before it
      no poll brought one of them or the end of the stream. Any other text is passed over. */
  lemma SuccessIs(polls: nat -> Poll)
    ensures Succeeds(polls) <==>
              exists j | 0 <= j < 29 ::
                && polls(j).Chunk?
                && (Contains(polls(j).text, "HTTP/1.1 200 OK") || Contains(polls(j).text, "ICY 200 OK"))
                && forall i | 0 <= i < j ::
                     && !polls(i).Closed?
                     && (polls(i).Chunk? ==> !Contains(polls(i).text, "HTTP/1.1 200 OK")
                                             && !Contains(polls(i).text, "ICY 200 OK"))
  {
    hide Contains;
    if Succeeds(polls) {
      var j :| 0 <= j < TIMEOUT - 1 && AcceptedAt(polls, j);
      assert polls(j).Chunk?;
    }
    if j :| && 0 <= j < 29 && polls(j).Chunk?
            && (Contains(polls(j).text, "HTTP/1.1 200 OK") || Contains(polls(j).text, "ICY 200 OK"))
            && forall i | 0 <= i < j ::
                 && !polls(i).Closed?
                 && (polls(i).Chunk? ==> !Contains(polls(i).text, "HTTP/1.1 200 OK")
                                         && !Contains(polls(i).text, "ICY 200 OK")) {
      assert AcceptedAt(polls, j);
    }
  }

  /** The 30th answer is still read, and makes the client send its position. */
  lemma AnsweredIs(polls: nat -> Poll)
    ensures Answered(polls) <==> Succeeds(polls) || AcceptedAt(polls, 29)
  {
    hide AcceptedAt;
  }

  /** The header of a source table does not end the handshake. */
  lemma SourceTableIsNoAnswer(polls: nat -> Poll)
    requires forall i: nat | polls(i).Chunk? :: polls(i).text == "SOURCETABLE 200 OK\r\n"
    ensures !Succeeds(polls)
  {
    hide Contains;
    NotContainsChar("SOURCETABLE 200 OK\r\n", "HTTP/1.1 200 OK", 0);
    NotContainsChar("SOURCETABLE 200 OK\r\n", "ICY 200 OK", 0);
    SuccessIs(polls);
  }

  // ---------- the socket of a peer ----------

  /** `Stop` and the end of a receive loop close the socket if its number is positive. */
  function Released(fd: int): int {
    if fd > 0 then -1 else fd
  }

  function ToClose(fd: int): seq<int> {
    if fd > 0 then [fd] else []
  }
}
