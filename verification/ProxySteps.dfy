/** What the run loop of a proxy does with pool fields and worker shares, as functions
    on the contents of the Proxy struct (server/proxy/proxy.go). Clock readings, random
    values and job ids are arguments; times are in nanoseconds. */
module ProxySteps {
  import opened Encoding
  import opened Jobs
  import opened Positional
  import opened Words
  import opened Wrappers
  import XdagAddress

  const MAX_UINT64: uint64 := TWO_64 - 1
  const SEND_INTERVAL: int := 4_000_000_000  // 4 * time.Second
  const FAKE_JOB_PREFIX := "FFFFFFFFFF"
  const WORKERNAME_HEADER_WORD: nat := 0xf46b9853
  // "XDAG_POOL_RESTART_DETECT_PROXY"
  const DETECT_PROXY: seq<byte> := [
    88, 68, 65, 71, 95, 80, 79, 79, 76, 95, 82, 69, 83, 84, 65,
    82, 84, 95, 68, 69, 84, 69, 67, 84, 95, 80, 82, 79, 88, 89]

  datatype Share = Share(JobID: string, Nonce: string, Result: string)
  {
    /** validateFormat: eight and sixty-four hexadecimal digits. */
    predicate WellFormed() {
      && |Nonce| == 8 && |Result| == 64
      && HexDecode(Nonce).Some? && HexDecode(Result).Some?
    }

    function NonceBytes(): (bs: seq<byte>)
      requires WellFormed()
      ensures |bs| == 4
    {
      HexDecodeLength(Nonce);
      HexDecode(Nonce).value
    }

    /** The last eight bytes of the result, little-endian. */
    function ResultValue(): (v: uint64)
      requires WellFormed()
    {
      HexDecodeLength(Result);
      var bs := HexDecode(Result).value[24..];
      LittleEndianRoundTrip(bs);
      PowersOf256();
      FromLittleEndian(bs)
    }

    predicate IsFake() {
      FAKE_JOB_PREFIX <= JobID
    }
  }

  datatype Outcome = Closed | NoClient | Rejected | Counted

  datatype State = State(
    address: seq<byte>, addressHash: seq<byte>,
    recvCount: nat, recvByte: seq<byte>,
    job: JobView, prevJobID: string, beforePrevJobID: string, beforeBeforePrevJobID: string,
    miniResult: uint64, miniNonce: uint32, lastSend: int,
    shares: nat, fieldIn: nat, fieldOut: nat, isClosed: bool, hasConn: bool)
  {
    ghost predicate Valid() {
      && |addressHash| == 24 && |recvByte| == 64 && recvCount <= 1
      && job.Sound()
      && (isClosed ==> !hasConn)
    }

    // The connection.

    /** connect, when the dial comes off or not; a worker name is one more field. */
    function Connect(dialed: bool, minerName: seq<byte>): State {
      if isClosed || !dialed then this
      else this.(hasConn := true, fieldOut := fieldOut + 16 + if minerName == [] then 0 else 1)
    }

    /** What connect hands to the new connection: the login, and the worker name. */
    function ConnectMessages(dialed: bool, minerName: seq<byte>): seq<seq<byte>> {
      if isClosed || !dialed then []
      else [LittleEndian(24, 4) + addressHash] + if minerName == [] then [] else [NameMessage(minerName)]
    }

    /** The end of shutdown, Close and Remove. */
    function Close(): State {
      this.(hasConn := false, isClosed := true)
    }

    // Shares.

    predicate IsCurrent(s: Share) {
      !s.IsFake() && s.JobID == job.ID
    }

    /** Whether the share takes part in the aggregation. */
    predicate Accepts(s: Share) {
      !isClosed && hasConn && IsCurrent(s) && s.WellFormed()
    }

    predicate IsDue(now: int) {
      now - lastSend >= SEND_INTERVAL
    }

    /** A share for the pool, with its transport header. */
    function Message(nonce: seq<byte>): seq<byte>
      requires |job.currentBlob| >= 60
    {
      LittleEndian(32, 4) + job.currentBlob[32..60] + nonce
    }

    /** What handleSubmit hands to the connection. */
    function SubmitMessage(s: Share, now: int): Option<seq<byte>>
      requires Valid() && s.JobID != ""
    {
      if !Accepts(s) || !IsDue(now) then None
      else if s.ResultValue() < miniResult then Some(Message(s.NonceBytes()))
      else Some(Message(LittleEndian(miniNonce, 4)))
    }

    function SubmitOutcome(s: Share): Outcome {
      if isClosed then Closed
      else if !hasConn then NoClient
      else if IsCurrent(s) && !s.WellFormed() then Rejected
      else Outcome.Counted
    }

    function Submit(s: Share, now: int): State {
      if SubmitOutcome(s) != Outcome.Counted then this
      else if !IsCurrent(s) then this.(shares := shares + 1)
      else if IsDue(now) then
        this.(shares := shares + 1, fieldOut := fieldOut + 1, miniResult := MAX_UINT64, lastSend := now)
      else if s.ResultValue() < miniResult then
        this.(shares := shares + 1, miniResult := s.ResultValue(), miniNonce := NonceWord(s))
      else this.(shares := shares + 1)
    }

    function NextJob(): State {
      this.(job := job.Next())
    }

    // Fields.

    predicate IsBalance(data: seq<byte>)
      requires |data| == 32
    {
      XdagAddress.AddressOf(data) == address
    }

    /** The job that a pair of fields makes. */
    function MakeJob(blobBytes: seq<byte>, id: string, nonce: uint64, target: string): JobView
      requires Valid() && |blobBytes| == 64
    {
      var blob := blobBytes[..32] + addressHash + BigEndian(nonce, 8);
      JobView(HexEncode(blob), id, target, HexEncode(blobBytes[32..]), XDAG_ALGO,
              nonce % TWO_32, nonce % TWO_32, blob)
    }

    /** Another block: the first 16 bytes of the blob differ. */
    predicate IsNews(candidate: JobView)
      requires Valid() && |candidate.Blob| >= 32
    {
      job.Blob == "" || job.Blob[..32] != candidate.Blob[..32]
    }

    function Adopt(candidate: JobView, now: int): State {
      this.(beforeBeforePrevJobID := beforePrevJobID, beforePrevJobID := prevJobID, prevJobID := job.ID,
            job := candidate, miniResult := MAX_UINT64, lastSend := now)
    }

    /** The second field of a pair: the candidate job, if the field completes one. */
    function Candidate(f: Field): Option<JobView>
      requires Valid()
    {
      if recvCount == 1 && !IsBalance(f.Data()) && address != DETECT_PROXY
      then Some(MakeJob(recvByte[..32] + f.Data(), f.id, f.nonce, f.target))
      else None
    }

    /** What a field does to the reassembly and, when it completes a pair, to the job. */
    function Reassemble(f: Field): State
      requires Valid()
    {
      if IsBalance(f.Data()) then this.(recvCount := 0)
      else if recvCount == 0 then
        if EndsInZeros(f.Data()) then this
        else this.(recvCount := 1, recvByte := f.Data() + recvByte[32..])
      else if address == DETECT_PROXY then this.(recvCount := 0).Close()
      else
        var paired := this.(recvCount := 0, recvByte := recvByte[..32] + f.Data());
        var candidate := Candidate(f).value;
        if IsNews(candidate) then paired.Adopt(candidate, f.now) else paired
    }

    function Notify(f: Field): State
      requires Valid()
    {
      this.(fieldIn := fieldIn + 1).Reassemble(f)
    }
  }

  /** A proxy as NewProxy makes it, and SetAddress unless it is left out. */
  function NewProxy(address: seq<byte>, addressHash: seq<byte>, prevJobID: string, now: int): State {
    State(address, addressHash, 0, Zeros(64), EMPTY_JOB, prevJobID, "", "",
          MAX_UINT64, 0, now, 0, 0, 0, false, false)
  }

  /** The field with the worker name, with its transport header. */
  function NameMessage(minerName: seq<byte>): seq<byte> {
    LittleEndian(32, 4) + LittleEndian(WORKERNAME_HEADER_WORD, 4) + Copied(Zeros(28), minerName)
  }

  function NonceWord(s: Share): uint32
    requires s.WellFormed()
  {
    LittleEndianRoundTrip(s.NonceBytes());
    PowersOf256();
    FromLittleEndian(s.NonceBytes())
  }

  /** A field from the pool, with the values that the proxy will draw if it makes a job. */
  datatype Field = Field(notif: seq<byte>, id: string, nonce: uint64, target: string, now: int)
  {
    /** The 32 bytes that handleNotification works on. */
    function Data(): (bs: seq<byte>)
      ensures |bs| == 32
    {
      Copied(Zeros(32), notif)
    }
  }

  predicate EndsInZeros(data: seq<byte>)
    requires |data| == 32
  {
    data[24..] == [0, 0, 0, 0, 0, 0, 0, 0]
  }
}
