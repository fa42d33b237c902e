/** Jobs and their nonce windows, server/proxy/job.go. */
module Jobs {
  import opened Encoding
  import opened Positional
  import opened Words

  const NONCE_OFFSET: nat := 60
  const NONCE_LENGTH: nat := 4
  const NONCE_INCREMENT: nat := 0x0200_0000
  const MAX_NONCE_VALUE: nat := 0xFFFF_FFFF - NONCE_INCREMENT
  const BLOB_LENGTH: nat := 64
  const XDAG_ALGO := "rx/xdag"

  /** Go's copy(dst, src), as the new contents of dst. */
  function Copied(dst: seq<byte>, src: seq<byte>): (r: seq<byte>)
    ensures |r| == |dst|
  {
    if |src| <= |dst| then src + dst[|src|..] else src[..|dst|]
  }

  function NextNonce(n: uint32): uint32 {
    var m := (n + NONCE_INCREMENT) % TWO_32;
    if m >= MAX_NONCE_VALUE then 1 else m
  }

  /** A 64-byte copy of a blob, with the nonce in its last four bytes. */
  function WithNonce(blob: seq<byte>, nonce: uint32): (r: seq<byte>)
    ensures |r| == BLOB_LENGTH
  {
    Copied(Zeros(BLOB_LENGTH), blob)[..NONCE_OFFSET] + BigEndian(nonce, NONCE_LENGTH)
  }

  /** The contents of a Job. */
  datatype JobView = JobView(
    Blob: string, ID: string, Target: string, SeedHash: string, Algo: string,
    initialNonce: uint32, currentNonce: uint32, currentBlob: seq<byte>)
  {
    /** What Next returns. */
    function Next(): JobView {
      var nonce := NextNonce(currentNonce);
      var blob := WithNonce(currentBlob, nonce);
      JobView(HexEncode(blob), ID, Target, SeedHash, XDAG_ALGO, initialNonce, nonce, blob)
    }

    /** A job that was never made has neither id nor blob. */
    ghost predicate Sound() {
      && (ID != "" || Blob != "" ==> |currentBlob| == BLOB_LENGTH)
      && (Blob != "" ==> Blob == HexEncode(currentBlob))
    }

    /** The blob ends with the nonce that the job stands for, and is what is published. */
    ghost predicate Consistent() {
      && |currentBlob| == BLOB_LENGTH
      && currentBlob[NONCE_OFFSET..] == BigEndian(currentNonce, NONCE_LENGTH)
      && Blob == HexEncode(currentBlob)
    }
  }

  const EMPTY_JOB: JobView := JobView("", "", "", "", "", 0, 0, [])

  /** The job after k rotations. */
  function Rotated(j: JobView, k: nat): JobView {
    if k == 0 then j else Rotated(j, k - 1).Next()
  }

  /** Rotation changes the nonce, and of the blob only the nonce's four bytes. */
  lemma {:induction false} RotatedKeeps(j: JobView, k: nat)
    requires |j.currentBlob| == BLOB_LENGTH && (k == 0 ==> j.Consistent())
    ensures var r := Rotated(j, k);
      && r.Consistent()
      && r.currentBlob[..NONCE_OFFSET] == j.currentBlob[..NONCE_OFFSET]
      && r.ID == j.ID && r.Target == j.Target && r.SeedHash == j.SeedHash && r.initialNonce == j.initialNonce
      && r.currentNonce == NonceAfter(j.currentNonce, k)
  {
    if k > 0 {
      var before := Rotated(j, k - 1);
      if k > 1 {
        RotatedKeeps(j, k - 1);
      }
      assert Copied(Zeros(BLOB_LENGTH), before.currentBlob) == before.currentBlob;
    }
  }

  /** The next nonce of any nonce, in plain numbers: 2^25 on, starting over at 1 where the
      window would not fit, and wrapping at 32 bits. */
  lemma NextNonceCases(n: uint32)
    ensures n < 0xFBFF_FFFF ==> NextNonce(n) == n + 0x0200_0000
    ensures 0xFBFF_FFFF <= n < 0xFE00_0000 ==> NextNonce(n) == 1
    ensures n >= 0xFE00_0000 ==> NextNonce(n) == n - 0xFE00_0000
  {
  }

  function NonceAfter(n: uint32, k: nat): uint32 {
    if k == 0 then n else NextNonce(NonceAfter(n, k - 1))
  }

  lemma {:induction false} NonceAfterShift(n: uint32, k: nat)
    ensures NonceAfter(NextNonce(n), k) == NonceAfter(n, k + 1)
  {
    if k > 0 {
      NonceAfterShift(n, k - 1);
    }
  }

  /** After a Next the window fits in 32 bits, wherever the nonce started. */
  lemma WindowFits(n: uint32, k: nat)
    requires k > 0
    ensures NonceAfter(n, k) + NONCE_INCREMENT < TWO_32 - 1
    ensures NonceAfter(n, k) < MAX_NONCE_VALUE
  {
    assert NonceAfter(n, k) == NextNonce(NonceAfter(n, k - 1));
  }

  lemma {:induction false} ClimbToOne(n: uint32) returns (k: nat)
    requires n < MAX_NONCE_VALUE
    ensures k > 0 && NonceAfter(n, k) == 1
    ensures (k - 1) * NONCE_INCREMENT < MAX_NONCE_VALUE - n
    decreases MAX_NONCE_VALUE - n
  {
    if NextNonce(n) == 1 {
      k := 1;
      assert NonceAfter(n, 1) == NextNonce(NonceAfter(n, 0));
    } else {
      k := ClimbToOne(n + NONCE_INCREMENT);
      NonceAfterShift(n, k);
      k := k + 1;
    }
  }

  /** From any start the nonce is 1 within 128 calls of Next. */
  lemma ReachesOne(n: uint32) returns (k: nat)
    ensures 1 <= k <= 128 && NonceAfter(n, k) == 1
  {
    var m := NextNonce(n);
    var i := ClimbToOne(m);
    NonceAfterShift(n, i);
    k := i + 1;
  }

  lemma CycleStep(r: nat)
    requires r < 127
    ensures NextNonce(1 + r * NONCE_INCREMENT) == 1 + (if r == 126 then 0 else r + 1) * NONCE_INCREMENT
  {
  }

  lemma SuccessorModulo(k: nat)
    ensures (k + 1) % 127 == if k % 127 == 126 then 0 else k % 127 + 1
  {
  }

  /** From 1 on the nonces are the multiples of the increment plus one, 127 in a cycle. */
  lemma {:induction false} Cycle(k: nat)
    ensures NonceAfter(1, k) == 1 + k % 127 * NONCE_INCREMENT
  {
    if k > 0 {
      Cycle(k - 1);
      CycleStep((k - 1) % 127);
      SuccessorModulo(k - 1);
    }
  }

  /** So the period is exactly 127 and no two windows of a period share a nonce. */
  lemma WindowsDisjoint(i: nat, j: nat)
    ensures NonceAfter(1, i) == NonceAfter(1, j) <==> i % 127 == j % 127
    ensures i % 127 != j % 127 ==>
      NonceAfter(1, i) + NONCE_INCREMENT <= NonceAfter(1, j) || NonceAfter(1, j) + NONCE_INCREMENT <= NonceAfter(1, i)
  {
    Cycle(i);
    Cycle(j);
  }

  lemma CopyFits(dst: seq<byte>, at: nat, src: seq<byte>)
    requires at <= |dst|
    ensures at + |src| <= |dst| ==> Copied(dst[at..], src) == src + dst[at + |src|..]
  {
  }

  /** Go's copy(dst[at:], src). */
  method CopyInto(dst: array<byte>, at: nat, src: seq<byte>)
    requires at <= dst.Length
    modifies dst
    ensures dst[..] == old(dst[..at]) + Copied(old(dst[at..]), src)
    ensures at + |src| <= dst.Length ==> dst[..] == old(dst[..at]) + src + old(dst[at + |src|..])
  {
    CopyFits(dst[..], at, src);
    var n := if |src| <= dst.Length - at then |src| else dst.Length - at;
    forall i | at <= i < at + n {
      dst[i] := src[i - at];
    }
    assert dst[..at] == old(dst[..at]);
    assert dst[at..] == Copied(old(dst[at..]), src);
  }

  method CopyWithNonce(current: array<byte>, nonce: uint32) returns (blob: array<byte>)
    ensures fresh(blob) && blob[..] == WithNonce(current[..], nonce)
  {
    var nonceBytes := BigEndian(nonce, NONCE_LENGTH);
    blob := new byte[BLOB_LENGTH](_ => 0);
    assert blob[..] == blob[0..] == Zeros(BLOB_LENGTH);
    CopyInto(blob, 0, current[..]);
    assert blob[..] == Copied(Zeros(BLOB_LENGTH), current[..]);
    CopyInto(blob, NONCE_OFFSET, nonceBytes);
  }

  class Job {
    var Blob: string
    var ID: string
    var Target: string
    var SeedHash: string
    var Algo: string
    var initialNonce: uint32
    var currentNonce: uint32
    var currentBlob: array<byte>

    function View(): JobView
      reads this, currentBlob
    {
      JobView(Blob, ID, Target, SeedHash, Algo, initialNonce, currentNonce, currentBlob[..])
    }

    constructor Empty()
      ensures View() == EMPTY_JOB && fresh(currentBlob)
    {
      Blob, ID, Target, SeedHash, Algo := "", "", "", "", "";
      initialNonce, currentNonce := 0, 0;
      currentBlob := new byte[0];
    }

    constructor Make(blob: string, id: string, target: string, seedHash: string, initial: uint32, nonce: uint32,
                     bytes: array<byte>)
      ensures View() == JobView(blob, id, target, seedHash, XDAG_ALGO, initial, nonce, bytes[..])
      ensures currentBlob == bytes
    {
      Blob, ID, Target, SeedHash, Algo := blob, id, target, seedHash, XDAG_ALGO;
      initialNonce, currentNonce := initial, nonce;
      currentBlob := bytes;
    }

    /** The next job on the same block. The old job's own nonce moves too. */
    method Next() returns (nextJob: Job)
      modifies this`currentNonce
      ensures nextJob.View() == old(View()).Next()
      ensures View() == old(View()).(currentNonce := old(View()).Next().currentNonce)
      ensures fresh(nextJob) && fresh(nextJob.currentBlob)
    {
      currentNonce := (currentNonce + NONCE_INCREMENT) % TWO_32;
      if currentNonce >= MAX_NONCE_VALUE {
        currentNonce := 1;
      }
      var blob := CopyWithNonce(currentBlob, currentNonce);
      nextJob := new Job.Make(HexEncode(blob[..]), ID, Target, SeedHash, initialNonce, currentNonce, blob);
    }
  }
}
