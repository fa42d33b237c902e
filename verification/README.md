# Verified model of xmrig2xdag

xmrig2xdag is a stratum proxy: mining workers talk JSON-RPC to it, and for each worker it
keeps one connection to an XDAG pool. This project models the parts of it that carry
state or arithmetic, and proves what they promise over all inputs and all runs.

| module | models |
|---|---|
| `Positional` | positional numbers in two bases, the theory below the two codecs |
| `Base58`, `Base58Check` | the Base58 codec with its chunked loops, and the checksummed form on top |
| `XdagAddress` | the 6-bit/8-bit address codec, with accumulators that overflow 64 bits |
| `SafeMaps` | the two-generation map, its migrations and their amortised cost |
| `ServerCodec` | request ids between a request and its reply, on top of the map |
| `Encoding`, `Jobs` | byte order and hexadecimal; jobs and their nonce windows |
| `ProxySteps`, `ProxyRuns` | what shares, pool fields, NextJob, connecting and closing do to a proxy, and runs of them |
| `Proxies` | the Proxy struct as a class, its methods proved against those steps |
| `Wire`, `ProxyHistory` | shares, fields and messages byte by byte; counters, job ids and wallet over runs |
| `Aggregation`, `Framing` | what a run sends to the pool, and which pool fields become jobs |
| `Lifecycle` | channels and locks of a proxy and its connection under every interleaving |
| `Reachability` | what those goroutines can do: connect, send, hand over, read, stop, tear down |
| `Director` | share accounting while proxies are removed and statistics are read |
| `Uniuri` | random strings by rejection sampling over blocks |
| `Words`, `Wrappers` | integer ranges and Option |

Code that updates state or arrays in place is a class or a method here, proved against a
function of the old state; the properties are lemmas about those functions and about runs.

How the source's values are represented:

- A Go string or byte slice is a sequence of bytes, except for job ids and hexadecimal
  text, which are Dafny strings. `Decode` ranges over runes; a byte of 0x80 or more is
  rejected by rune and by byte alike, so the model goes by bytes.
- `big.Int` is `nat`. Machine words are ranges, and every place where a word can wrap is
  written out with its modulus. Shifts, masks and ORs on accumulators are products,
  quotients and sums; `d & 0xC0 == 0` on a byte is `d / 64 == 0`.
- The checksum is any function that yields four bytes.
- Clock readings, random blocks, random nonces, job ids and job targets are arguments.
- Share validation is at the format level, which is the configured default.
- The symbol alphabets are spelled in runs of consecutive characters.
- `Hash2address` is called with 24 bytes or more, as everywhere in the repository; with
  fewer, Go would panic on the index.

## Findings

- A window of shares in which no result is below 2^64-1 is sent with whatever nonce is
  left in `miniNonce`: that of the last share that lowered the minimum of its window and
  was not sent at once, and zero if there was none. `Aggregation.SentShareIsBest` says
  exactly when the right nonce goes out, `Aggregation.WrongNonceIsSent` gives the share,
  and `Aggregation.WrongNonceIsReached` a run of a new proxy that leads to it.
- A proxy whose shares removal has moved to `deleteShares` before GetStats loads it, and
  which `Range` visits too, is counted twice in one report
  (`Director.ReportedTwice`; exactly then: `Director.MetTwiceExactly`). The report is too
  high exactly if it met more shares twice than it missed (`Director.StatsAreBounded`),
  and the next report's NewShares may then wrap round to 2^64-1
  (`Director.NewSharesCanWrap`; exactly when: `Director.NewSharesExactly`).
- `handleNotification` looks for the restart-detecting proxy by an address that no wallet
  can have, so for every proxy with a wallet that branch is dead
  (`Proxies.RestartBranchIsDead`); the detecting proxy itself is given another string
  as its address (server/proxy/detect.go:24).
- The comments describe `shutdown(1)`, but nothing sends 1 on `done`. The absence of a
  send on a closed channel rests on that (`Lifecycle.ShutdownByPoolWouldFault`).
- A Del that makes the new generation the old one may leave it sparse again, until the next
  Del: exactly if the new generation had used up its deletions too and the two together
  have fewer than 1000 entries (`SafeMaps.DelRebuilds`).
- The removal from `dirtyNew` in the first branch of `Set` never has anything to remove
  (`SafeMaps.SetStep`).

## Model

| member | source | states |
|---|---|---|
| `Base58.DecodeOfEncode` | server/base58/base58.go:30-142 | decoding the encoding of any bytes gives them back, leading zero bytes included |
| `Base58.EncodeOfDecode` | server/base58/base58.go:30-142 | encoding the decoding of any string over the alphabet gives it back, so the two are inverse bijections |
| `Base58.DecodeEmptyExactly` | server/base58/base58.go:50-88 | the result is empty exactly for the empty string and for strings with a character outside the alphabet |
| `Base58.EncodeImage` | server/base58/base58.go:92-142 | Encode is one-to-one, and a string is an encoding exactly if it is over the alphabet |
| `Base58.EncodeKeepsNumber` | server/base58/base58.go:92-142 | an encoding spells the same number in base 58, behind as many ones as there are leading zero bytes |
| `Base58.EncodeLength` | server/base58/base58.go:96-133 | the logarithmic bound of the comment in integers: 58^(len-1) <= 256^n, leading ones included |
| `Base58.AlphabetSpelled` | server/base58/alphabet.go:11 | the 58 symbols that digits stand for are the alphabet, in order |
| `Base58.SymbolToDigit` | server/base58/alphabet.go:16-49 | the table b58 maps every symbol back to its digit |
| `Base58.DigitToSymbol` | server/base58/alphabet.go:16-49 | every character with an entry other than 255 is the symbol of that digit |
| `Base58.RadixTable` | server/base58/base58.go:13-27 | entry n of bigRadix is 58^n |
| `Base58.Decode` | server/base58/base58.go:30-89 | the chunked loop with its short last chunk yields the leading zeros and base-256 digits of the number that the characters spell, or empty; it terminates |
| `Base58.DecodeChunk` | server/base58/base58.go:56-67 | the inner loop finds a bad character or the Horner value of the chunk, within uint64 |
| `Base58.ChunkStep` | server/base58/base58.go:66 | one more digit keeps the running total below 58^10 |
| `Base58.ChunkRead` | server/base58/base58.go:69-73 | a good chunk moves the value up by 58^n, a bad one makes the whole result empty |
| `Base58.PrependZeros` | server/base58/base58.go:76-88 | the zeros put in front are as many as the string has leading ones |
| `Base58.Encode` | server/base58/base58.go:92-142 | digits, zero padding and reversal in place together yield the leading ones and base-58 digits of the number |
| `Base58.EncodeDigits` | server/base58/base58.go:93-125 | the chunked division emits exactly the base-58 digits, lowest first, with none extra in the top chunk |
| `Base58.EncodePadded` | server/base58/base58.go:119-123 | a chunk that is not the top one emits exactly ten digits of the whole number |
| `Base58.Reverse` | server/base58/base58.go:136-139 | the swaps in place reverse the buffer |
| `Base58Check.CheckDecodeOfCheckEncode` | server/base58/base58check.go:28-52 | CheckDecode of a CheckEncode returns the payload and the version without an error |
| `Base58Check.CheckEncodeOfCheckDecode` | server/base58/base58check.go:28-52 | whatever CheckDecode accepts is the CheckEncode of its result |
| `Base58Check.AcceptedExactly` | server/base58/base58check.go:38-69 | both decoders accept exactly the strings that CheckEncode produces, and reject with the same error |
| `Base58Check.ChkDecCanonical` | server/base58/base58check.go:55-69 | Encode of a ChkDec result is the input string |
| `Base58Check.CheckEncodeParts` | server/base58/base58check.go:28-35 | what is encoded is version, payload, and the checksum of the two |
| `Base58Check.CheckErrors` | server/base58/base58check.go:38-69 | the format error comes exactly for fewer than five decoded bytes; ChkDec returns all of the decoded bytes |
| `SafeMaps.RunRefinesMap` | server/utils/safemap.go:31-111 | after any run of Set and Del the generations are key-disjoint, satisfy the counter invariants and hold exactly what one ordinary map would |
| `SafeMaps.AmortisedCopies` | server/utils/safemap.go:42-57 | over any run of n calls, maxDeletion times the entries copied is at most (copyThreshold-1)*n, by the potential deletionOld+deletionNew |
| `SafeMaps.DeletionsBalance` | server/utils/safemap.go:31-111 | over any run, entries added to generations are those present, plus deletions counted, plus deletions spent by migrations |
| `SafeMaps.StepRefines` | server/utils/safemap.go:31-111 | one Set or Del in any reachable state keeps the invariant and does to the contents what it does to an ordinary map |
| `SafeMaps.SetStep` | server/utils/safemap.go:93-111 | Set keeps the invariant and counts at most one deletion; in the first branch the key is never in dirtyNew |
| `SafeMaps.DelStep` | server/utils/safemap.go:31-59 | Del removes its key and nothing else through both migrations; it copies fewer than copyThreshold entries and pays with maxDeletion counted deletions |
| `SafeMaps.SetExactly` | server/utils/safemap.go:93-111 | in plain numbers: up to 10000 deletions the old generation is written, then the new one, and a key that moves is counted |
| `SafeMaps.DelExactly` | server/utils/safemap.go:31-59 | in plain numbers: whose deletion is counted, when each migration happens and all four fields after it |
| `SafeMaps.DelRebuilds` | server/utils/safemap.go:42-57 | after a Del the old generation never has 10000 deletions and fewer than 1000 entries, but in one case, given exactly |
| `SafeMaps.SafeMap.Set` | server/utils/safemap.go:93-111 | both branches in place: the four fields become those of the step that SetStep and RunRefinesMap are about |
| `SafeMaps.SafeMap.Del` | server/utils/safemap.go:31-59 | removal and both migrations in place: the four fields become those of the step that DelStep is about, and the loops copy exactly as many entries as the cost lemma charges |
| `SafeMaps.SafeMap.Get` | server/utils/safemap.go:62-72 | the value of the abstract map, or none |
| `SafeMaps.SafeMap.Size` | server/utils/safemap.go:114-119 | the size of the abstract map |
| `SafeMaps.SafeMap.Range` | server/utils/safemap.go:76-90 | calls f on distinct bindings, stops exactly when f says false, and otherwise visits every binding once |
| `XdagAddress.HashOfAddressOf` | server/xdag/block.go:51-105 | the hash of the address of a hash is its first 24 bytes and eight zeros |
| `XdagAddress.AddressOfHashOf` | server/xdag/block.go:51-105 | the address of the hash of any valid address is that address |
| `XdagAddress.AddressIsBase64` | server/xdag/block.go:54-65 | every three bytes make four characters, six bits each, high bits first |
| `XdagAddress.Hash2address` | server/xdag/block.go:51-67 | the loop, whose accumulator wraps, spells the 192-bit number of the first 24 bytes in base 64 |
| `XdagAddress.Address2hash` | server/xdag/block.go:70-105 | succeeds exactly on 32-byte strings wholly in the alphabet, despite the skip loop, and then packs their 192-bit number into 24 bytes and eight zeros |
| `XdagAddress.NextSymbol` | server/xdag/block.go:83-93 | the inner loop stops at the next character of the alphabet, or at 32 if there is none |
| `XdagAddress.PackSextet` | server/xdag/block.go:94-101 | six bits pushed into an accumulator that has overflowed still bring out the right byte |
| `XdagAddress.SpellByte` | server/xdag/block.go:57-64 | eight bits pushed into an accumulator that has overflowed still bring out the right character |
| `XdagAddress.InitMime2bits` | server/xdag/block.go:40-48 | the table built at start-up is the inverse table of bits2mime, and 255 elsewhere |
| `XdagAddress.MimeRoundTrip` | server/xdag/block.go:22-48 | the inverse table maps each of the 64 characters back to its value |
| `XdagAddress.Bits2mimeSpelled` | server/xdag/block.go:22 | the characters that values stand for are bits2mime, in order |
| `Jobs.RotatedKeeps` | server/proxy/job.go:82-108 | any number of Next calls leaves bytes 0..59, id, target, seed and initial nonce alone; the last four bytes are the current nonce and Blob is the hexadecimal of the bytes |
| `Jobs.WindowFits` | server/proxy/job.go:16-21 | after a Next from any 32-bit start the window of 2^25 nonces stays within 32 bits |
| `Jobs.ReachesOne` | server/proxy/job.go:84-87 | from any start the nonce is 1 within 128 calls |
| `Jobs.Cycle` | server/proxy/job.go:84-87 | from 1 the k-th nonce is 1 + (k mod 127) * 2^25 |
| `Jobs.WindowsDisjoint` | server/proxy/job.go:16-21 | the period is exactly 127 and different windows of it are disjoint |
| `Jobs.NextNonceCases` | server/proxy/job.go:84-87 | the next nonce of every 32-bit nonce in plain numbers: on by 2^25, back to 1, or wrapped |
| `Jobs.Job.Next` | server/proxy/job.go:82-108 | returns a fresh job with the rewritten blob; of the old job only the nonce changes |
| `ProxyRuns.Run` | server/proxy/proxy.go:151-454 | every run of shares, fields, NextJob calls, attempts to connect and calls that close keeps the proxy's state well formed: at most one field open, a job with an id has a 64-byte blob, a closed proxy has no connection |
| `Proxies.Proxy.constructor` | server/proxy/proxy.go:132-149 | a new proxy has no job, no fields, and the largest miniResult |
| `Proxies.Proxy.SetAddress` | server/proxy/proxy.go:673-684 | takes exactly the strings that pass ChkDec with 24 bytes, and changes nothing else or nothing |
| `Proxies.Proxy.Connect` | server/proxy/proxy.go:294-349 | whole new state, and the login and worker-name messages with their headers; nothing on a closed proxy or when the dial fails |
| `Proxies.Proxy.Close` | server/proxy/proxy.go:431-454 | the proxy is closed without a connection, and nothing else about it changes |
| `Proxies.Proxy.CreateJob` | server/proxy/proxy.go:629-653 | the blob is the first field, the address hash and the big-endian nonce |
| `Proxies.Proxy.HandleJob` | server/proxy/proxy.go:212-223 | shifts the ids of the last three jobs, adopts the job and opens a new window |
| `Proxies.Proxy.NextJob` | server/proxy/proxy.go:587-593 | the current job is replaced by its next version |
| `Proxies.Proxy.CreateShare` | server/proxy/proxy.go:655-663 | bytes 32..59 of the current blob and the nonce bytes |
| `Proxies.Proxy.MakeShare` | server/proxy/proxy.go:665-671 | the same with the stored nonce, little-endian |
| `Proxies.Proxy.Aggregate` | server/proxy/proxy.go:507-533 | sends or remembers the share as the step function says, and what is sent |
| `Proxies.Proxy.HandleSubmit` | server/proxy/proxy.go:482-552 | whole new state, outcome and message of a share in every branch |
| `Proxies.Proxy.HandleNotification` | server/proxy/proxy.go:253-292 | whole new state for a field: balance, first field, field ending in zeros, pair completed, job adopted or not, and the restart branch that closes the proxy |
| `Proxies.WalletIsCanonical` | server/proxy/proxy.go:673-684 | after any SetAddress calls with a success among them, Encode(addressHash) is the address, and the address is one of those tried |
| `Proxies.TakesExactly` | server/proxy/proxy.go:673-680 | SetAddress takes exactly the encodings of a version and nineteen bytes |
| `Proxies.LastSuccessStays` | server/proxy/proxy.go:673-684 | after any calls the wallet is that of the last success |
| `Proxies.RestartBranchIsDead` | server/proxy/proxy.go:268-272 | no proxy that was given a wallet has the address that the branch tests for |
| `Proxies.RestartBranchCloses` | server/proxy/proxy.go:266-272 | with that address a completed pair closes the proxy and makes no job |
| `Proxies.FieldsLeaveOpen` | server/proxy/proxy.go:253-292 | without it no field closes the proxy or touches its connection |
| `Wire.ShareRead` | server/proxy/proxy.go:508-510 | the result is the little-endian value of its last eight bytes, written out, and the nonce its four bytes |
| `Wire.WellFormedExactly` | server/proxy/share.go:101-115 | valid format is eight and sixty-four hexadecimal digits of either case |
| `Wire.SharesTaken` | server/proxy/proxy.go:485-536 | which shares are aggregated, which are only counted, and which change nothing |
| `Wire.SendsExactly` | server/proxy/proxy.go:511-523 | a message goes out exactly for an aggregated share at least 4 * 10^9 nanoseconds after the last |
| `Wire.FieldOpens` | server/proxy/proxy.go:259-265 | with no pair open, a field that is not the balance is passed over exactly if bytes 24..31 are all zero, and opens a pair otherwise |
| `Wire.FieldCompletes` | server/proxy/proxy.go:266-279 | with a pair open, any field but the balance closes it; the job's blob starts with the first field and its seed is the second |
| `Wire.FieldIsBalance` | server/proxy/proxy.go:257-258 | the address with a balance closes an open pair without a job and changes nothing else |
| `Wire.BalanceByHash` | server/proxy/proxy.go:257 | for an address of 32 characters, that is the field that starts with the address's hash |
| `Wire.LoginBytes` | server/proxy/proxy.go:327-341 | the bytes of the login and of the worker name, headers included |
| `ProxyHistory.CountersAreRight` | server/proxy/proxy.go:254-536 | over every run shares, fieldIn and fieldOut are the shares counted, the fields received and the fields sent, 16 or 17 for each connection |
| `ProxyHistory.LastJobsAreKnown` | server/proxy/proxy.go:215-218 | over every run the three remembered ids are those of the three jobs before the current one |
| `ProxyHistory.JobsNameWallet` | server/proxy/proxy.go:644-648 | over every run of a new proxy bytes 32..55 of the current job are the wallet's hash |
| `ProxyHistory.MessagesNameWallet` | server/proxy/proxy.go:655-671 | over every such run each message is the header, the wallet's hash, bytes 56..59 of the job and four bytes of nonce |
| `Aggregation.SentShareIsBest` | server/proxy/proxy.go:500-533 | over every run the share sent carries the nonce of the least result among validated current-job shares since the last send or job change; at 2^64-1 it carries the nonce lingering from the last share that lowered the minimum of its window unsent, so the right one exactly if the two are equal |
| `Aggregation.RunLingers` | server/proxy/proxy.go:514-531 | over every run miniNonce is the nonce of the last share that lowered the minimum of its window and was not sent at once, or the initial value |
| `Aggregation.BestIsEarliestMinimum` | server/proxy/proxy.go:514-531 | the best share of a window has the least result and is the earliest of those that do |
| `Aggregation.RunTracks` | server/proxy/proxy.go:212-223 | over every run miniResult and miniNonce are those of the best share of the window |
| `Aggregation.WrongNonceIsSent` | server/proxy/proxy.go:514-518 | a share with result 2^64-1 for which the pool receives nonce zero |
| `Aggregation.WrongNonceIsReached` | server/proxy/proxy.go:132-149 | a new proxy gets there by connecting, receiving its first job and, four seconds later, its first share |
| `Aggregation.SendsAreSpaced` | server/proxy/proxy.go:511-526 | with a monotone clock consecutive sends are at least four seconds apart |
| `Framing.CandidatesAreParsed` | server/proxy/proxy.go:253-279 | over every run the candidate jobs are those of a pure parse of the whole field history, and none for the detecting address |
| `Framing.PairsAreAdjacent` | server/proxy/proxy.go:257-279 | each parsed pair is two neighbouring fields of the history, in order and without overlap |
| `Framing.PairsAreAll` | server/proxy/proxy.go:257-279 | and every opening field followed by one that is not the balance is such a pair |
| `Framing.MarkExactly` | server/proxy/proxy.go:257-263 | which fields are the balance and which can open a pair, byte by byte |
| `Framing.ParseOneMore` | server/proxy/proxy.go:257-279 | one more field changes the parse by what recvCount and recvByte remember |
| `Framing.MadeJob` | server/proxy/proxy.go:629-653 | bytes 0..31, 32..55 and 56..63 of a made job, and that bytes 60..63 are its current nonce and Blob its hexadecimal |
| `Framing.AdoptsExactly` | server/proxy/proxy.go:280 | a candidate is adopted exactly if there is no job or its first 16 bytes differ from the current job's |
| `Framing.AdoptedJobsDiffer` | server/proxy/proxy.go:212-290 | over every run consecutively adopted jobs differ in their first 16 bytes, and the current job is the last adopted one up to its nonce |
| `Lifecycle.NoFault` | server/proxy/proxy.go:151-626 | in no interleaving does a goroutine send on a closed notify, submissions or msgBuffChan, close a channel twice or handle a nil share; notify is closed only when the connection is nil or closed |
| `Lifecycle.ExecKeeps` | server/proxy/proxy.go:294-454 | every step of every goroutine keeps the invariant |
| `Lifecycle.StopLockSound` | server/xdag/connect.go:131-136 | taking the write lock in Stop or Close excludes the readers and leaves intact what every other goroutine relies on |
| `Lifecycle.StopExitSound` | server/xdag/connect.go:144-177 | from the test of isClosed on, Stop and Close never close msgBuffChan a second time, and leave flag and channel in agreement |
| `Lifecycle.SendSound` | server/xdag/connect.go:195-204 | no step of SendBuffMsg sends on a closed msgBuffChan |
| `Lifecycle.ReadSound` | server/xdag/connect.go:110-114 | no step of the reader sends on a closed notify |
| `Lifecycle.EnterTeardownSound` | server/proxy/proxy.go:370-454 | after connMu is taken, shutdown, Close and Remove go on only with a proxy that is not closed, and to the connection first |
| `Lifecycle.TeardownSound` | server/proxy/proxy.go:418-428 | no step of a teardown closes done, notify or submissions a second time, and notify is closed only after the connection |
| `Lifecycle.ShutdownByPoolWouldFault` | server/proxy/proxy.go:383-397 | shutdown(1) would leave the reader sending on a closed notify |
| `Reachability.MovesUnlessWaiting` | server/proxy/proxy.go:151-626 | every goroutine can go on unless it is over or waits for a lock or for the run loop |
| `Reachability.Connects` | server/proxy/proxy.go:294-342 | from every state in which the run loop is about to connect, connMu is free and the proxy is not closed, its own moves make the connection and start reader and writer |
| `Reachability.ReachesPut` | server/xdag/connect.go:195-201 | a message gets as far as the channel of an open connection |
| `Reachability.LeavesPut` | server/xdag/connect.go:195-204 | and through it, and the run loop goes back to serving with every lock let go |
| `Reachability.HandsOver` | server/proxy/proxy.go:555-583 | a submitter hands its share to a serving run loop and waits for the reply with connMu held |
| `Reachability.SendsShare` | server/proxy/proxy.go:482-523 | the run loop takes it up and sends it on |
| `Reachability.ReaderPuts` | server/xdag/connect.go:110-112 | the reader gets as far as its send on notify |
| `Reachability.LoopEnds` | server/xdag/connect.go:129-154 | reader and writer end, and close the connection |
| `Reachability.TearsDown` | server/proxy/proxy.go:370-454 | from every reachable state shutdown, Close and Remove, with connMu held and the connection idle, come to their end, with the connection, the three channels and the proxy closed |
| `Reachability.RunLoopEnds` | server/proxy/proxy.go:204-206 | a run loop that serves a closed proxy comes to its end |
| `Reachability.ReaderPutIsReached` | server/xdag/connect.go:110-112 | a schedule from the start with the reader at its send |
| `Reachability.HandOverIsReached` | server/proxy/proxy.go:574-583 | a schedule from the start with a submitter waiting for its reply and the run loop about to handle the share |
| `Reachability.SharePutIsReached` | server/proxy/proxy.go:523 | a schedule from the start with the run loop sending a share |
| `Reachability.CloseIsReached` | server/proxy/proxy.go:431-454 | a schedule from the start with a finished Close: all five closed |
| `Reachability.TheEndIsReached` | server/proxy/proxy.go:204-206 | and one that goes on until run loop, reader and writer have ended |
| `Director.SharesAreConserved` | server/proxy/director.go:84-90 | after any steps, shares of proxies not yet moved plus deleteShares are all shares ever counted |
| `Director.StatsAreBounded` | server/proxy/director.go:101-117 | a report is never below what was counted when its Range began; it is exactly what is counted plus what it met twice less what it missed, so above what is counted exactly if it met more twice than it missed |
| `Director.MetTwiceExactly` | server/proxy/director.go:84-114 | a report meets nothing twice if and only if no proxy that its Range visited with shares has had removeProxy add its shares by then |
| `Director.RangeVisitsAll` | server/proxy/director.go:106-113 | when GetStats loads, its Range has visited exactly the proxies in the map when it began, at all stages of removal, each with the shares counted by its visit, from the history of steps alone |
| `Director.InRangeExactly` | server/proxy/director.go:84-113 | those are the ones that had been added and not been deleted at the step where it began |
| `Director.VisitedAfterMove` | server/proxy/director.go:84-114 | a proxy whose shares were moved before the Range, but which is not yet deleted: one share reported as two |
| `Director.NewSharesExactly` | server/proxy/director.go:116-117 | NewShares is the true difference of two reports if and only if the shares counted in between, those missed before and those met twice now make up for those met twice before and missed now |
| `Director.NewSharesDoNotWrap` | server/proxy/director.go:116-117 | in particular after a report that met nothing twice |
| `Director.ReportedTwice` | server/proxy/director.go:84-114 | a removal between visit and load: one share reported as two |
| `Director.NewSharesCanWrap` | server/proxy/director.go:116-117 | after it the next NewShares is 2^64-1 |
| `ServerCodec.PendingIsUnanswered` | server/stratum/codec.go:86-125 | over every interleaving of requests and replies pending holds exactly the unanswered requests with their ids, through all migrations |
| `ServerCodec.ReplyCarriesItsId` | server/stratum/codec.go:118-131 | a reply with number s carries the id of the s-th accepted request |
| `ServerCodec.AtMostOneReply` | server/stratum/codec.go:118-125 | after a reply to s, no later reply to s goes out |
| `ServerCodec.Codec.ReadRequestHeader` | server/stratum/codec.go:86-92 | gives out the next number and records the id under it |
| `ServerCodec.Codec.WriteResponse` | server/stratum/codec.go:115-131 | answers with the id of the unanswered request, or with an error if there is none |
| `Uniuri.NewLenChars` | server/proxy/uniuri.go:35-64 | the result is the first `length` accepted bytes of the stream mapped through chars, whatever the block boundaries; wrong charset lengths are refused |
| `Uniuri.EverySymbolEquallyOften` | server/proxy/uniuri.go:43-57 | every character is selected by exactly 256 / clen byte values |
| `Uniuri.AcceptedByte` | server/proxy/uniuri.go:43-57 | which bytes are thrown away and which character each of the others becomes |
| `Uniuri.EachCharacterEquallyOften` | server/proxy/uniuri.go:43-57 | each of different characters comes from exactly 256 / clen byte values |
| `Uniuri.FillFrom` | server/proxy/uniuri.go:51-62 | one block continues the string where the last one stopped and never writes past it |
| `Encoding.LittleEndianRoundTrip` | server/proxy/proxy.go:510-530 | reading a little-endian word and writing it again gives the same bytes |
| `Encoding.WordAt` | server/proxy/proxy.go:647-668 | which byte of a word stands where, big-endian and little-endian |
| `Encoding.HexRoundTrip` | server/proxy/job.go:104 | hexadecimal text decodes to the bytes it was made from |
| `Encoding.HexEncodeAt` | server/proxy/job.go:104 | the two digits of each byte, the high one first |
| `Encoding.HexDecodeExactly` | server/proxy/share.go:105-110 | what decodes is an even number of hexadecimal digits of either case |
| `Encoding.HexPrefixInjective` | server/proxy/proxy.go:280 | equal prefixes of hexadecimal text are equal prefixes of the bytes |

## Left out

- The rendezvous of a submitted share: Submit waits for its reply while it holds connMu, and handleSubmit takes the same lock, so neither side goes on. The lifecycle model claims safety only and lets the wait end at any time; `HandleSubmit` is one atomic call.
- Which job ids Submit lets through, getTarget, and the pool's fake and raw blocks.
- Requests without an id: a nil `*json.RawMessage` stored in an interface is not equal to nil, so notifications do get a reply (server/stratum/codec.go:127). The codec model has requests with an id only.
- Recovery after a pool restart and the proxy with ID 0.
- A second login on a worker, which would start a second run loop: the lifecycle has one run loop for each proxy.
- setTarget and the float capacity of Encode's buffer: they rest on float64 rounding. The length bound is proved with integer powers.
- SHA-256, and the quality of random values.
- JSON parsing, RPC dispatch, sockets, TLS, SOCKS5, timers, logging and configuration.
- server/stratum/client.go, server/xdag/time.go, validateDifficulty and validateResult.
- Lifecycle is a step relation over program counters: the contents and capacities of channels, the Response and Error channels of a share, and a failing worker are not in it.
- Director is a state machine on values, not a class: the map of proxies is a sequence and Range is one step for each visit. Totals do not wrap, except in NewShares.
- NewSharesDoNotWrap: a corollary in one direction; NewSharesExactly has both.
- Proxies.Proxy.HandleSubmit: does not model targetSince and the call of setTarget at the first retargeting share; the outcome stands for what goes through the share's Response and Error channels.
- Proxies.Proxy.HandleNotification: does not model the target refresh, nor poolIsDown, a variable of the whole process that the restart branch clears.
- Proxies.Proxy.Connect: does not model the two-second sleep, during which connMu is held, nor the choice of dialer.
- The lock of a SafeMap: each call is atomic, as the lock makes it.
- Address2hash: the partly filled hash that comes with an error is not specified.
