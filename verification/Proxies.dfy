/** The Proxy struct: its methods in place, proved against the steps of ProxySteps. */
module Proxies {
  import opened Base58
  import opened Base58Check
  import opened Encoding
  import opened Jobs
  import opened Positional
  import opened ProxySteps
  import opened Words
  import opened Wrappers
  import XdagAddress

  /** What a proxy knows of the wallet it mines for. */
  datatype Wallet = Wallet(address: seq<byte>, addressHash: seq<byte>)
  {
    function SetAddress(checksum: Checksum, a: seq<byte>): Wallet {
      if Takes(checksum, a) then Wallet(a, ChkDec(checksum, a).payload) else this
    }
  }

  /** The strings that SetAddress takes. */
  predicate Takes(checksum: Checksum, a: seq<byte>) {
    ChkDec(checksum, a).Ok? && |ChkDec(checksum, a).payload| == 24
  }

  function SetAll(w: Wallet, checksum: Checksum, tries: seq<seq<byte>>): Wallet {
    if tries == [] then w
    else SetAll(w, checksum, tries[..|tries| - 1]).SetAddress(checksum, tries[|tries| - 1])
  }

  ghost predicate Canonical(w: Wallet) {
    EncodeSpec(w.addressHash) == w.address && |w.addressHash| == 24
  }

  lemma SetAddressCanonical(w: Wallet, checksum: Checksum, a: seq<byte>)
    requires Takes(checksum, a)
    ensures Canonical(w.SetAddress(checksum, a)) && w.SetAddress(checksum, a).address == a
  {
    ChkDecCanonical(checksum, a);
  }

  /** After any calls of SetAddress with a success among them, the stored hash is the
      stored address decoded, and encodes to it again. */
  lemma {:induction false} WalletIsCanonical(w: Wallet, checksum: Checksum, tries: seq<seq<byte>>, k: nat)
    requires k < |tries| && Takes(checksum, tries[k])
    ensures Canonical(SetAll(w, checksum, tries)) && SetAll(w, checksum, tries).address in tries
  {
    var init, last := tries[..|tries| - 1], tries[|tries| - 1];
    assert k == |tries| - 1 ==> tries[k] == last;
    if Takes(checksum, last) {
      SetAddressCanonical(SetAll(w, checksum, init), checksum, last);
    } else {
      WalletIsCanonical(w, checksum, init, k);
    }
  }

  /** What SetAddress takes: the encodings of a version and nineteen bytes. */
  lemma TakesExactly(checksum: Checksum, a: seq<byte>)
    ensures Takes(checksum, a) <==> exists p: seq<byte>, v: byte :: |p| == 19 && CheckEncode(checksum, p, v) == a
  {
    TakesBySize(checksum, a);
    if Takes(checksum, a) {
      CheckEncodeOfCheckDecode(checksum, a);
    }
    if p: seq<byte>, v: byte :| |p| == 19 && CheckEncode(checksum, p, v) == a {
      CheckDecodeOfCheckEncode(checksum, p, v);
    }
  }

  lemma TakesBySize(checksum: Checksum, a: seq<byte>)
    ensures Takes(checksum, a) <==> CheckDecode(checksum, a).Ok? && |CheckDecode(checksum, a).payload| == 19
  {
    CheckErrors(checksum, a);
  }

  /** The wallet is that of the last success. */
  lemma {:induction false} LastSuccessStays(w: Wallet, checksum: Checksum, tries: seq<seq<byte>>, k: nat)
    requires k < |tries| && Takes(checksum, tries[k])
    requires forall j | k < j < |tries| :: !Takes(checksum, tries[j])
    ensures SetAll(w, checksum, tries) == Wallet(tries[k], DecodeSpec(tries[k]))
  {
    var init := tries[..|tries| - 1];
    CheckErrors(checksum, tries[k]);
    if k < |tries| - 1 {
      LastSuccessStays(w, checksum, init, k);
    }
  }

  const UNDERSCORE: byte := 95  // '_'
  /** The address that handleNotification takes for the detect proxy's has '_' in it, so
      no proxy that was given a wallet takes that branch. */
  lemma RestartBranchIsDead(w: Wallet, checksum: Checksum, tries: seq<seq<byte>>, k: nat)
    requires k < |tries| && Takes(checksum, tries[k])
    ensures SetAll(w, checksum, tries).address != DETECT_PROXY
  {
    WalletIsCanonical(w, checksum, tries, k);
    var a := SetAll(w, checksum, tries).address;
    EncodeImage(a);
    NoUnderscore(a, 4);
    DetectProxyUnderscore();
  }

  /** Without that address a field neither closes the proxy nor touches its connection. */
  lemma FieldsLeaveOpen(st: State, f: Field)
    requires st.Valid() && st.address != DETECT_PROXY
    ensures st.Notify(f).isClosed == st.isClosed && st.Notify(f).hasConn == st.hasConn
  {
  }

  /** With it, the second field of a pair closes the proxy and makes no job. */
  lemma RestartBranchCloses(st: State, f: Field)
    requires st.Valid() && st.address == DETECT_PROXY && st.recvCount == 1
    ensures st.Notify(f).isClosed && st.Notify(f).job == st.job && st.Notify(f).recvCount == 0
  {
    assert |XdagAddress.AddressOf(f.Data())| == 32 != |DETECT_PROXY|;
  }

  lemma DetectProxyUnderscore()
    ensures |DETECT_PROXY| > 4 && DETECT_PROXY[4] == UNDERSCORE
  {
  }

  lemma NoUnderscore(s: seq<byte>, i: nat)
    requires Valid(s)
    ensures i < |s| ==> s[i] != UNDERSCORE
  {
    assert i < |s| ==> B58(s[i]) != INVALID;
  }

  class Proxy {
    var address: seq<byte>
    const addressHash: array<byte>
    const recvByte: array<byte>
    var recvCount: nat
    var currentJob: Job
    var PrevJobID: string
    var BeforePrevJobID: string
    var BeforeBeforePrevJobID: string
    var miniResult: uint64
    var miniNonce: uint32
    var lastSend: int
    var shares: nat
    var fieldIn: nat
    var fieldOut: nat
    var isClosed: bool
    var hasConn: bool  // Conn is not nil

    function View(): State
      reads this, addressHash, recvByte, currentJob, currentJob.currentBlob
    {
      State(address, addressHash[..], recvCount, recvByte[..], currentJob.View(),
            PrevJobID, BeforePrevJobID, BeforeBeforePrevJobID,
            miniResult, miniNonce, lastSend, shares, fieldIn, fieldOut, isClosed, hasConn)
    }

    ghost predicate Valid()
      reads this, addressHash, recvByte, currentJob, currentJob.currentBlob
    {
      && View().Valid()
      && addressHash != recvByte
      && currentJob.currentBlob != addressHash && currentJob.currentBlob != recvByte
    }

    constructor (prevJobID: string, now: int)
      ensures Valid()
      ensures View() == NewProxy([], Zeros(24), prevJobID, now)
    {
      address, recvCount := [], 0;
      addressHash := new byte[24](_ => 0);
      recvByte := new byte[64](_ => 0);
      currentJob := new Job.Empty();
      PrevJobID, BeforePrevJobID, BeforeBeforePrevJobID := prevJobID, "", "";
      miniResult, miniNonce, lastSend := MAX_UINT64, 0, now;
      shares, fieldIn, fieldOut, isClosed, hasConn := 0, 0, 0, false, false;
      new;
      assert addressHash[..] == Zeros(24) && recvByte[..] == Zeros(64);
    }

    method SetAddress(checksum: Checksum, a: seq<byte>) returns (ok: bool)
      requires Valid()
      modifies this`address, addressHash
      ensures Valid()
      ensures ok <==> Takes(checksum, a)
      ensures Wallet(address, addressHash[..]) == Wallet(old(address), old(addressHash[..])).SetAddress(checksum, a)
      ensures View() == old(View()).(address := address, addressHash := addressHash[..])
    {
      var r := ChkDec(checksum, a);
      if r.Err? {
        return false;
      }
      var h := r.payload;
      if |h| != 24 {
        return false;
      }
      CopyInto(addressHash, 0, h);
      assert addressHash[..] == h;
      address := a;
      return true;
    }

    /** connect, without the sleep; dialed says whether the pool answered. What is returned
        is what SendBuffMsg gets. */
    method Connect(dialed: bool, minerName: seq<byte>) returns (ok: bool, messages: seq<seq<byte>>)
      requires Valid()
      modifies this`hasConn, this`fieldOut
      ensures Valid()
      ensures ok <==> dialed && !old(isClosed)
      ensures View() == old(View()).Connect(dialed, minerName)
      ensures messages == old(View()).ConnectMessages(dialed, minerName)
    {
      if isClosed {
        return false, [];
      }
      if !dialed {
        return false, [];
      }
      hasConn := true;
      fieldOut := fieldOut + 16;
      messages := [LittleEndian(24, 4) + addressHash[..]];
      if minerName != [] {
        fieldOut := fieldOut + 1;
        messages := messages + [NameMessage(minerName)];
      }
      ok := true;
    }

    /** What shutdown, Close and Remove do to the fields. */
    method Close()
      requires Valid()
      modifies this`hasConn, this`isClosed
      ensures Valid()
      ensures View() == old(View()).Close()
    {
      if isClosed {
        return;
      }
      hasConn := false;
      isClosed := true;
    }

    /** The three copies into the blob of a new job. */
    method BuildBlob(blobBytes: seq<byte>, nonce: uint64) returns (blob: array<byte>)
      requires Valid() && |blobBytes| == 64
      ensures fresh(blob) && blob[..] == blobBytes[..32] + addressHash[..] + BigEndian(nonce, 8)
    {
      blob := new byte[64](_ => 0);
      CopyInto(blob, 0, blobBytes);
      assert blob[..] == blobBytes;
      CopyInto(blob, 32, addressHash[..]);
      assert blob[..56] == blobBytes[..32] + addressHash[..];
      CopyInto(blob, 56, BigEndian(nonce, 8));
    }

    method CreateJob(blobBytes: seq<byte>, id: string, nonce: uint64, target: string) returns (j: Job)
      requires Valid() && |blobBytes| == 64
      ensures fresh(j) && fresh(j.currentBlob)
      ensures j.View() == View().MakeJob(blobBytes, id, nonce, target)
    {
      var blob := BuildBlob(blobBytes, nonce);
      j := new Job.Make(HexEncode(blob[..]), id, target, HexEncode(blobBytes[32..]),
                        nonce % TWO_32, nonce % TWO_32, blob);
    }

    method HandleJob(job: Job, now: int)
      requires Valid() && job.currentBlob != addressHash && job.currentBlob != recvByte
      requires job.View().Sound()
      modifies this
      ensures Valid() && currentJob == job
      ensures View() == old(View()).Adopt(old(job.View()), now)
    {
      ghost var before, next := View(), job.View();
      BeforeBeforePrevJobID := BeforePrevJobID;
      BeforePrevJobID := PrevJobID;
      PrevJobID := currentJob.ID;
      currentJob := job;
      miniResult := MAX_UINT64;
      lastSend := now;
      assert View() == before.Adopt(next, now);
    }

    method NextJob()
      requires Valid()
      modifies this`currentJob, currentJob`currentNonce
      ensures Valid() && fresh(currentJob)
      ensures View() == old(View()).NextJob()
    {
      currentJob := currentJob.Next();
    }

    /** CreateShare, given the nonce bytes of the share; MakeShare passes a stored nonce. */
    method CreateShare(nonceBytes: seq<byte>) returns (result: seq<byte>)
      requires Valid() && currentJob.ID != "" && |nonceBytes| == 4
      ensures result == currentJob.currentBlob[32..60] + nonceBytes
    {
      var buffer := new byte[32](_ => 0);
      CopyInto(buffer, 0, currentJob.currentBlob[32..60]);
      assert buffer[..28] == currentJob.currentBlob[32..60];
      CopyInto(buffer, 28, nonceBytes);
      result := buffer[..];
    }

    method MakeShare(nonce: uint32) returns (result: seq<byte>)
      requires Valid() && currentJob.ID != ""
      ensures result == currentJob.currentBlob[32..60] + LittleEndian(nonce, 4)
    {
      result := CreateShare(LittleEndian(nonce, 4));
    }

    /** The part of handleSubmit under jobMu: send the best share, or remember it. */
    method Aggregate(s: Share, now: int) returns (message: Option<seq<byte>>)
      requires Valid() && s.JobID != "" && View().Accepts(s)
      modifies this`fieldOut, this`miniResult, this`miniNonce, this`lastSend
      ensures Valid()
      ensures View() == old(View()).Submit(s, now).(shares := shares)
      ensures message == old(View()).SubmitMessage(s, now)
    {
      message := None;
      var nonceBytes := s.NonceBytes();
      var result := s.ResultValue();
      if now - lastSend >= SEND_INTERVAL {
        var shareBytes: seq<byte>;
        if result < miniResult {
          shareBytes := CreateShare(nonceBytes);
        } else {
          shareBytes := MakeShare(miniNonce);
        }
        message := Some(LittleEndian(32, 4) + shareBytes);
        assert message.value == View().Message(if result < miniResult then nonceBytes else LittleEndian(miniNonce, 4));
        fieldOut := fieldOut + 1;
        miniResult := MAX_UINT64;
        lastSend := now;
      } else {
        if result < miniResult {
          miniResult := result;
          miniNonce := NonceWord(s);
        }
      }
    }

    /** handleSubmit, on a share that Submit let through; message is what SendBuffMsg gets. */
    method HandleSubmit(s: Share, now: int) returns (outcome: Outcome, message: Option<seq<byte>>)
      requires Valid() && s.JobID != ""
      modifies this`shares, this`fieldOut, this`miniResult, this`miniNonce, this`lastSend
      ensures Valid()
      ensures View() == old(View()).Submit(s, now)
      ensures outcome == old(View()).SubmitOutcome(s)
      ensures message == old(View()).SubmitMessage(s, now)
    {
      message := None;
      if isClosed {
        return Closed, None;
      }
      if !hasConn {
        return NoClient, None;
      }
      if !s.IsFake() && s.JobID == currentJob.ID {
        if !s.WellFormed() {
          return Rejected, None;
        }
        message := Aggregate(s, now);
      }
      shares := shares + 1;
      return Outcome.Counted, message;
    }

    /** A pair is complete: make the job, and adopt it if it is news. */
    method AdoptPair(f: Field, data: array<byte>)
      requires Valid() && recvCount == 0 && data[..] == f.Data() && data != recvByte
      modifies this, recvByte
      ensures Valid()
      ensures var pair := old(View()).recvByte[..32] + f.Data();
        var paired, job := old(View()).(recvByte := pair), old(View()).MakeJob(pair, f.id, f.nonce, f.target);
        View() == if old(View()).IsNews(job) then paired.Adopt(job, f.now) else paired
    {
      ghost var before := View();
      CopyInto(recvByte, 32, data[..]);
      assert recvByte[..] == before.recvByte[..32] + f.Data();
      var job := CreateJob(recvByte[..], f.id, f.nonce, f.target);
      assert job.View() == before.MakeJob(recvByte[..], f.id, f.nonce, f.target);
      if currentJob.Blob == "" || currentJob.Blob[..32] != job.Blob[..32] {
        HandleJob(job, f.now);
      }
    }

    /** The second field of a pair arrived. */
    method CompletePair(f: Field, data: array<byte>)
      requires Valid() && recvCount == 1 && !View().IsBalance(f.Data())
      requires data[..] == f.Data() && data != recvByte
      modifies this, recvByte
      ensures Valid()
      ensures View() == old(View()).Reassemble(f)
    {
      recvCount := 0;
      if address == DETECT_PROXY {
        Close();
        return;
      }
      AdoptPair(f, data);
    }

    /** The first field of a pair arrived, or one that is passed over. */
    method BeginPair(f: Field, data: array<byte>)
      requires Valid() && recvCount == 0 && !View().IsBalance(f.Data())
      requires data[..] == f.Data() && data != recvByte
      modifies this, recvByte
      ensures Valid()
      ensures View() == old(View()).Reassemble(f)
    {
      if EndsInZeros(data[..]) {
        return;
      }
      ghost var before := View();
      recvCount := recvCount + 1;
      CopyInto(recvByte, 0, data[..]);
      assert recvByte[..] == f.Data() + before.recvByte[32..];
      assert View() == before.(recvCount := 1, recvByte := recvByte[..]);
    }

    method DataOf(f: Field) returns (data: array<byte>)
      ensures fresh(data) && data[..] == f.Data()
    {
      data := new byte[32](_ => 0);
      assert data[..] == data[0..] == Zeros(32);
      CopyInto(data, 0, f.notif);
    }

    method Reassemble(f: Field, data: array<byte>)
      requires Valid() && data[..] == f.Data() && data != recvByte
      modifies this, recvByte
      ensures Valid()
      ensures View() == old(View()).Reassemble(f)
    {
      var spelled := XdagAddress.Hash2address(data[..]);
      if spelled == address {
        recvCount := 0;
      } else if recvCount == 0 {
        BeginPair(f, data);
      } else if recvCount == 1 {
        CompletePair(f, data);
      }
    }

    method HandleNotification(f: Field)
      requires Valid()
      modifies this, recvByte
      ensures Valid()
      ensures View() == old(View()).Notify(f)
    {
      ghost var before := View();
      var data := DataOf(f);
      fieldIn := fieldIn + 1;
      ghost var counted := View();
      assert counted == before.(fieldIn := before.fieldIn + 1);
      assert before.Notify(f) == counted.Reassemble(f);
      Reassemble(f, data);
    }
  }
}
