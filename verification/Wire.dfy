/** Byte by byte: how shares are read, which fields open and complete a pair, and what
    goes to the pool. */
module Wire {
  import opened Encoding
  import opened Jobs
  import opened Positional
  import opened ProxySteps
  import opened Words
  import opened Wrappers
  import XdagAddress

  // Shares.

  /** The nonce is the four bytes of its field; the result is read from the last eight of
      its thirty-two bytes, lowest first. */
  lemma ShareRead(id: string, nonce: seq<byte>, front: seq<byte>, b: seq<byte>)
    requires |nonce| == 4 && |front| == 24 && |b| == 8
    ensures var s := Share(id, HexEncode(nonce), HexEncode(front + b));
      && s.WellFormed() && s.NonceBytes() == nonce
      && s.ResultValue() as nat == b[0] as nat + 0x100 * b[1] as nat + 0x1_0000 * b[2] as nat + 0x100_0000 * b[3] as nat
        + 0x1_0000_0000 * b[4] as nat + 0x100_0000_0000 * b[5] as nat + 0x1_0000_0000_0000 * b[6] as nat
        + 0x100_0000_0000_0000 * b[7] as nat
  {
    HexRoundTrip(nonce);
    HexRoundTrip(front + b);
    assert (front + b)[24..] == b;
    FromLittleEndianEight(b);
  }

  /** The format check, spelled out. */
  lemma WellFormedExactly(s: Share)
    ensures s.WellFormed() <==>
      && |s.Nonce| == 8 && |s.Result| == 64
      && (forall i | 0 <= i < 8 :: IsHex(s.Nonce[i])) && (forall i | 0 <= i < 64 :: IsHex(s.Result[i]))
  {
    HexDecodeExactly(s.Nonce);
    HexDecodeExactly(s.Result);
  }

  /** Which shares are aggregated, which are only counted, and which change nothing. */
  lemma SharesTaken(st: State, s: Share, now: int)
    requires st.Valid() && s.JobID != ""
    ensures var live := st.hasConn && !st.isClosed;
      var current := s.JobID == st.job.ID && !("FFFFFFFFFF" <= s.JobID);
      && (st.Accepts(s) <==> live && current && s.WellFormed())
      && (live && !current ==> st.Submit(s, now) == st.(shares := st.shares + 1))
      && (!live || (current && !s.WellFormed()) ==> st.Submit(s, now) == st)
      && (st.Accepts(s) ==> st.Submit(s, now).shares == st.shares + 1)
  {
  }

  /** A message goes out exactly for an aggregated share four seconds after the last one. */
  lemma SendsExactly(st: State, s: Share, now: int)
    requires st.Valid() && s.JobID != ""
    ensures st.SubmitMessage(s, now).Some? <==> st.Accepts(s) && now - st.lastSend >= 4_000_000_000
  {
  }

  // Fields.

  lemma DataAt(f: Field, i: nat)
    requires i < 32
    ensures f.Data()[i] == if i < |f.notif| then f.notif[i] else 0
  {
  }

  lemma ZeroTail(data: seq<byte>)
    requires |data| == 32
    ensures EndsInZeros(data) <==> forall i | 24 <= i < 32 :: data[i] == 0
  {
    if forall i | 24 <= i < 32 :: data[i] == 0 {
      assert data[24..] == [0, 0, 0, 0, 0, 0, 0, 0];
    }
    forall i | 24 <= i < 32 && EndsInZeros(data) ensures data[i] == 0 {
      assert data[24..][i - 24] == data[i];
    }
  }

  /** With no pair open, a field that is not the balance opens one exactly if one of its
      last eight bytes is not zero. */
  lemma FieldOpens(st: State, f: Field)
    requires st.Valid() && st.recvCount == 0 && |f.notif| == 32 && XdagAddress.AddressOf(f.notif) != st.address
    ensures st.Notify(f).recvCount == 0 <==> forall i | 24 <= i < 32 :: f.notif[i] == 0
    ensures st.Notify(f).recvCount == 1 ==> st.Notify(f).recvByte[..32] == f.notif
    ensures st.Notify(f).job == st.job
  {
    assert f.Data() == f.notif;
    ZeroTail(f.notif);
  }

  /** With a pair open, any field but the balance closes it, and makes a job of the two. */
  lemma FieldCompletes(st: State, f: Field)
    requires st.Valid() && st.recvCount == 1 && |f.notif| == 32 && XdagAddress.AddressOf(f.notif) != st.address
    requires st.address != DETECT_PROXY
    ensures st.Notify(f).recvCount == 0 && st.Candidate(f).Some?
    ensures var j := st.Candidate(f).value;
      j.currentBlob[..32] == st.recvByte[..32] && j.SeedHash == HexEncode(f.notif)
  {
    assert f.Data() == f.notif;
    assert (st.recvByte[..32] + f.notif)[..32] == st.recvByte[..32];
    assert (st.recvByte[..32] + f.notif)[32..] == f.notif;
    assert st.Candidate(f).value.currentBlob[..32] == st.recvByte[..32];
  }

  /** The balance opens nothing, and closes whatever is open without making a job of it. */
  lemma FieldIsBalance(st: State, f: Field)
    requires st.Valid() && |f.notif| == 32 && XdagAddress.AddressOf(f.notif) == st.address
    ensures st.Notify(f) == st.(fieldIn := st.fieldIn + 1, recvCount := 0) && st.Candidate(f) == None
  {
    assert f.Data() == f.notif;
  }

  /** For an address of 32 characters it is the field that starts with the address's hash. */
  lemma BalanceByHash(address: seq<byte>, data: seq<byte>)
    requires XdagAddress.IsAddress(address) && |data| == 32
    ensures XdagAddress.AddressOf(data) == address <==> data[..24] == XdagAddress.HashOf(address)[..24]
  {
    XdagAddress.HashOfAddressOf(data);
    XdagAddress.AddressOfHashOf(address);
    assert (data[..24] + Zeros(8))[..24] == data[..24];
  }

  // Messages.

  lemma HeaderBytes()
    ensures LittleEndian(24, 4) == [24, 0, 0, 0] && LittleEndian(32, 4) == [32, 0, 0, 0]
    ensures LittleEndian(WORKERNAME_HEADER_WORD, 4) == [0x53, 0x98, 0x6b, 0xf4]
  {
    LittleEndianFour(24, [24, 0, 0, 0]);
    LittleEndianFour(32, [32, 0, 0, 0]);
    LittleEndianFour(WORKERNAME_HEADER_WORD, [0x53, 0x98, 0x6b, 0xf4]);
  }

  lemma LittleEndianFour(n: nat, b: seq<byte>)
    requires |b| == 4 && n == b[0] as nat + 256 * b[1] as nat + 65536 * b[2] as nat + 16777216 * b[3] as nat
    ensures LittleEndian(n, 4) == b
  {
    FromLittleEndianFour(b);
    LittleEndianRoundTrip(b);
  }

  /** A connection starts with the wallet's hash, and the worker name in a field of its
      own, cut off or filled up with zeros. */
  lemma LoginBytes(st: State, name: seq<byte>)
    requires !st.isClosed
    ensures st.ConnectMessages(true, name)
      == [[24, 0, 0, 0] + st.addressHash] + if name == [] then [] else [NameMessage(name)]
    ensures |NameMessage(name)| == 36 && NameMessage(name)[..8] == [32, 0, 0, 0, 0x53, 0x98, 0x6b, 0xf4]
    ensures forall i | 0 <= i < 28 :: NameMessage(name)[8 + i] == if i < |name| then name[i] else 0
  {
    HeaderBytes();
    assert NameMessage(name) == [32, 0, 0, 0, 0x53, 0x98, 0x6b, 0xf4] + Copied(Zeros(28), name);
  }
}
