# Verified models of the operating-system and networking examples

The repository teaches operating systems and networking, and its Python examples are small programs
with hard invariants. This project models eleven of them in Dafny and proves what they are for. Objects
that the Python code updates in place are classes whose methods are tied to a function on values; loops
are methods with invariants; protocols between threads are state machines over the critical sections.
`dafny verify dfyconfig.toml` checks everything.

| modules | program | main results |
|---|---|---|
| `BoundedBuffer`, `BoundedBufferProgram` | `producer_consumer.py` | no wake-up is ever lost, so no run gets stuck; every run ends within a bound, and delivers every item exactly once |
| `LockOrdering` | `deadlock_demo.py` | a set of two-lock threads can deadlock exactly when their lock orders form a cycle; sorted orders never do |
| `LruSpec`, `LruCache` | `lru_cache.py` | sentinel list and map refine a recency-ordered sequence that is a window on the trace; a larger cache always contains a smaller one |
| `NumberTheory`, `MillerRabin` | `tls_inspect.py` | Fermat's little theorem and square roots of one; the test passes exactly the numbers that are strong probable primes to the drawn bases, and no prime is ever rejected |
| `Bytes`, `Der`, `Rsa`, `KeyGen` | `tls_inspect.py` | a PKCS#1 v1.5 signature opens to the padded block (sections 8.2 and 9.2 of RFC 8017); every key generated from 426 bits on whose factors are prime signs verifiably |
| `DnsName`, `DnsText`, `DnsMessage` | `dns_query.py` | a name is read exactly when it stands encoded there in section 4.1.4 of RFC 1035's sense, by labels and chains of pointers; messages of section 4.1 are read back with the names given to the serializer |
| `Chunked`, `HttpClient`, `ChunkedDelivery`, `DeliveryOutcomes`, `HttpHead`, `HttpResponse`, `ServedText` | `http_client.py` | a response whose bytes follow RFC 9112 (sections 4, 5 and 7.1) gives the client its body, under every fragmentation; without negative sizes the body depends only on the byte stream, with them it is shown exactly when and how it does not |
| `Bits`, `Ipv4`, `Subnets`, `Vlsm` | `subnet_calculator.py` | bit masks are aligned blocks; allocation works exactly when the block sizes add up, hence whenever any allocation does |
| `HashRing` | `consistent_hash.py` | over all histories lookups depend on the node set alone, and never fail, exactly when no points collide; adding and removing move only the keys they must |
| `CircuitBreaker` | `circuit_breaker.py` | in every interleaving nothing is admitted during a cooldown, and the counters mean what they say |
| `TokenBucket` | `token_bucket_ratelimiter.py`, `rate_limiter.py` | a call is allowed exactly when the history conforms to rate and burst; tokens are admitted, left or spilled above the capacity |
| `ReplayGuard` | `token_bucket_ratelimiter.py` | no signed request is accepted twice, exactly when the nonce lives longer than twice the skew; a request is accepted exactly when no accepted one with its nonce is still alive |
| `SlidingWindow` | `rate_limiter.py` | the pruned deque answers as the full history would; no window at all exceeds the limit |

`Totals`, `Sequences`, `Strings` and `Wrappers` hold sums, slices, `split` and `join`, and optional values.

Conventions. Floating-point numbers are reals. Clock readings, random draws and received fragments are
inputs; MD5, SHA-256 and HMAC are uninterpreted functions. Python integers are unbounded and so are
Dafny's; where the code truncates (`int_to_ip`, negative slice bounds) the model does too.

Where code and comments differ, the model follows the code:

- `consistent_hash.py` line 92 speaks of the first position at or beyond a key; `bisect_right` finds the
  first one strictly beyond, so a key that hashes onto a point belongs to the next point.
- `circuit_breaker.py` line 70 speaks of one probe; any number of threads is admitted in HALF_OPEN
  (`CircuitBreaker.SingleProbeIff`).
- `circuit_breaker.py` line 97 labels a branch CLOSED that late completions also reach in OPEN, where
  they reset or raise the failure count and may restart the cooldown.
- `dns_query.py` reads length bytes 64 to 191 as ordinary labels, which RFC 1035 reserves.

Properties that fail, and exactly when:

- `Vlsm.FailsIff`: only the upper end of a block is compared with the parent's, and addresses wrap at
  2^32, so a parent ending at 255.255.255.255 never runs out of space and one overhanging request is let
  through (`Vlsm.EscapesBelow`).
- `HashRing.RemoveAlignedIff`, `HashRing.NodesDecideIff`: two points at one position leave a sorted entry
  without an owner when the node that owns it leaves.
- `DeliveryOutcomes.DeliveryMattersIff`, `ChunkedDelivery.NegativeMatters`: a negative chunk size is not
  rejected, and then the body can depend on how the bytes arrive. `ChunkedDelivery.MinusOneMatters`,
  `ChunkedDelivery.MinusTwoMatters` and `ChunkedDelivery.SmallerMatters` give the condition for each size,
  `HttpResponse.NegativeLengthMatters` for a negative content length.
- `TokenBucket.DeniedShowsIff`: when clock readings may step back a denied call can change later answers.
- `ReplayGuard.ReplayableIff`: the nonce store's time to live has to exceed twice the skew.
- `ReplayGuard.UnambiguousIff`: the signed text is called unambiguous; it is when no field has a newline
  (`ReplayGuard.CanonicalInjective`), and otherwise exactly when none of the lines this makes can be
  taken for the timestamp.

## Model

| member | source | states |
|---|---|---|
| BoundedBuffer.WakeupPreserved | os_net/operating_system/examples/producer_consumer.py:66-81 | every step of any thread, spurious wake-ups included, keeps: while a consumer sleeps un-notified the buffer holds at most as many items as there are notified consumers, and the same for producers and free slots |
| BoundedBuffer.StepPreserves | os_net/operating_system/examples/producer_consumer.py:66-118 | every step keeps the whole invariant: capacity, no lost wake-up, the arrival line, conservation of items |
| BoundedBuffer.Progress | os_net/operating_system/examples/producer_consumer.py:66-118 | in every state of the invariant that is not finished some thread can make a real step |
| BoundedBuffer.StuckIffDone | os_net/operating_system/examples/producer_consumer.py:88-118 | a state has no step other than spurious wake-ups exactly when every thread has ended |
| BoundedBuffer.StepDecreases | os_net/operating_system/examples/producer_consumer.py:66-118 | every real step lowers the measure, a spurious wake-up raises it by one |
| BoundedBuffer.InitMeasure | os_net/operating_system/examples/producer_consumer.py:88-118 | the initial measure is within a closed bound in producers, consumers and items |
| BoundedBuffer.RunKeeps | os_net/operating_system/examples/producer_consumer.py:66-118 | over any run the invariant is kept and the number of steps is bounded by the measure and the spurious wake-ups |
| BoundedBuffer.ReachableInv | os_net/operating_system/examples/producer_consumer.py:88-118 | every reachable state satisfies the invariant |
| BoundedBuffer.PillsComeLast | os_net/operating_system/examples/producer_consumer.py:111-117 | a pill is next only when all real items have been put and have left the buffer; each consumer that left took exactly one pill |
| BoundedBuffer.DoneDelivers | os_net/operating_system/examples/producer_consumer.py:88-118 | at the end the buffer is empty, every item was consumed exactly once and nothing else was |
| BoundedBuffer.DoneVerifies | os_net/operating_system/examples/producer_consumer.py:155-162 | at the end what `verify` asserts holds: no duplicates, the right set, the right count |
| BoundedBuffer.EveryRun | os_net/operating_system/examples/producer_consumer.py:88-162 | for any number of producers, at least one consumer and capacity at least one: every run stays within capacity, is bounded, is stuck only when done, and then passes `verify` |
| BoundedBufferProgram.Program.constructor | os_net/operating_system/examples/producer_consumer.py:57-64 | the initial program state, with empty wait queues, is the model's |
| BoundedBufferProgram.Program.Put | os_net/operating_system/examples/producer_consumer.py:66-73 | one pass through put is an enabled step of the model and wakes the longest waiter |
| BoundedBufferProgram.Program.Get | os_net/operating_system/examples/producer_consumer.py:75-81 | one pass through get is an enabled step of the model and wakes the longest waiter |
| BoundedBufferProgram.Program.Record | os_net/operating_system/examples/producer_consumer.py:99-105 | appending to the consumed list, or leaving on a pill, is the model's step |
| BoundedBufferProgram.Program.PassJoin | os_net/operating_system/examples/producer_consumer.py:111-117 | main's joins are the model's steps |
| BoundedBufferProgram.Program.Turn | os_net/operating_system/examples/producer_consumer.py:88-118 | giving any thread that can run a turn keeps the program valid and lowers the measure |
| BoundedBufferProgram.SomeoneRuns | os_net/operating_system/examples/producer_consumer.py:88-118 | in every reachable unfinished state some thread can be scheduled |
| BoundedBufferProgram.RunWithRawBuffer | os_net/operating_system/examples/producer_consumer.py:88-118 | under an arbitrary scheduler the whole program returns a list that passes `verify` |
| LockOrdering.StepExclusive | os_net/operating_system/examples/deadlock_demo.py:94-101 | every step keeps every lock with at most one holder |
| LockOrdering.RunKeeps | os_net/operating_system/examples/deadlock_demo.py:94-107 | over any run mutual exclusion holds, and steps taken plus steps remaining are constant |
| LockOrdering.StuckHasCycle | os_net/operating_system/examples/deadlock_demo.py:62-79 | a stuck state contains a circular wait |
| LockOrdering.DeadlockIffCycle | os_net/operating_system/examples/deadlock_demo.py:50-107 | for any threads taking any two locks a stuck state is reachable exactly when the orders contain a cycle |
| LockOrdering.SortedDeadlockIff | os_net/operating_system/examples/deadlock_demo.py:94-101 | sorted orders contain a cycle exactly when some thread asks for one lock twice |
| LockOrdering.SortedRunsFinish | os_net/operating_system/examples/deadlock_demo.py:90-107 | with sorted orders of distinct locks every run has at most four steps a thread, and is out of steps exactly when all have finished |
| LockOrdering.OppositeOrdersDeadlock | os_net/operating_system/examples/deadlock_demo.py:62-79 | the AB/BA orders have a reachable stuck state |
| LockOrdering.RunTransfers | os_net/operating_system/examples/deadlock_demo.py:90-107 | under an arbitrary scheduler every transfer completes |
| LruSpec.TraceLaw | os_net/operating_system/examples/lru_cache.py:85-115 | after any trace: distinct keys, within capacity, ordered by last touch, each with the last value put, and exactly the most recent entries of the whole history |
| LruSpec.CachedIff | os_net/operating_system/examples/lru_cache.py:85-115 | a key is in the cache exactly when it was touched and fewer than capacity keys were touched after its last touch |
| LruSpec.UsedKeySurvives | os_net/operating_system/examples/lru_cache.py:85-115 | a key just put, or got with success, keeps its value in the cache through any calls until it is put again or capacity other keys have been used |
| LruSpec.RunIsWindow | os_net/operating_system/examples/lru_cache.py:85-115 | the cache is the front of an unbounded history, cut at the capacity |
| LruSpec.HistoryByRecency | os_net/operating_system/examples/lru_cache.py:85-115 | the history is ordered by strictly falling time of last touch and has every key ever touched |
| LruSpec.HistoryValues | os_net/operating_system/examples/lru_cache.py:97-109 | every entry's value is the one of the last put of its key |
| LruSpec.EvictsOldest | os_net/operating_system/examples/lru_cache.py:106-115 | a new key in a full cache removes exactly the entry whose last touch is the oldest |
| LruSpec.EvictionsBalance | os_net/operating_system/examples/lru_cache.py:106-119 | evictions plus current size equal the insertions of new keys |
| LruSpec.LargerIncludesSmaller | os_net/operating_system/examples/lru_cache.py:85-115 | on one trace a smaller cache is a subsequence of a larger one with equal values, so the larger hits whenever the smaller does |
| LruCache.LRUCache.constructor | os_net/operating_system/examples/lru_cache.py:58-70 | an empty cache whose two sentinels are linked to each other |
| LruCache.LRUCache.Remove | os_net/operating_system/examples/lru_cache.py:73-75 | unlinks exactly that node: both pointer directions agree on the remaining chain |
| LruCache.LRUCache.PushFront | os_net/operating_system/examples/lru_cache.py:77-82 | links the node behind the head: both pointer directions agree on the longer chain |
| LruCache.LRUCache.Get | os_net/operating_system/examples/lru_cache.py:85-95 | refines the specification's get; a hit returns the stored value and counts as hit, a miss returns the default |
| LruCache.LRUCache.Put | os_net/operating_system/examples/lru_cache.py:97-115 | refines the specification's put; an eviction is counted exactly when a new key meets a full cache |
| LruCache.LRUCache.Size | os_net/operating_system/examples/lru_cache.py:117-119 | the size of the map is the length of the list and of the abstract sequence, within capacity |
| LruCache.Replay | os_net/operating_system/examples/lru_cache.py:58-115 | after any trace of calls on the heap structure its contents, evictions and balance are the specification's |
| NumberTheory.Fermat | os_net/comp_networking/examples/tls_inspect.py:54-76 | Fermat's little theorem, on which the test rests |
| NumberTheory.RootsOfOne | os_net/comp_networking/examples/tls_inspect.py:67-75 | modulo a prime only 1 and -1 square to 1, on which the squaring loop rests |
| NumberTheory.EuclidLemma | os_net/comp_networking/examples/tls_inspect.py:54-76 | a prime dividing a product divides a factor |
| NumberTheory.CoprimeProduct | os_net/comp_networking/examples/tls_inspect.py:86-98 | what two distinct primes divide their product divides |
| MillerRabin.Decomposition | os_net/comp_networking/examples/tls_inspect.py:61-64 | the odd part doubled as often as the loop counted gives the number back |
| MillerRabin.SplitTwos | os_net/comp_networking/examples/tls_inspect.py:61-64 | the loop finds the odd part and the number of twos |
| MillerRabin.Round | os_net/comp_networking/examples/tls_inspect.py:66-75 | one round succeeds exactly when the base is a strong witness for n |
| MillerRabin.Rounds | os_net/comp_networking/examples/tls_inspect.py:65-76 | all rounds succeed exactly when every drawn base is a strong witness |
| MillerRabin.IsPrime | os_net/comp_networking/examples/tls_inspect.py:54-76 | for all draws: up to 40 the answer is membership in the twelve small primes; beyond, a factor among them gives False, and without one the answer is True exactly when every base a = 2 + draw % (n - 3) passes: for every odd d and r with n - 1 = d * 2^r, a^d is 1 modulo n or some i < r has a^(d * 2^i) = -1; so a base with a^(n - 1) != 1 gives False, and a prime is never rejected |
| MillerRabin.AcceptsMeans | os_net/comp_networking/examples/tls_inspect.py:54-76 | the acceptance condition used by the key generator is that same one |
| MillerRabin.StrongIsPasses | os_net/comp_networking/examples/tls_inspect.py:61-75 | the strong test does not depend on how n - 1 is split: it may be read for every odd d and r with n - 1 = d * 2^r |
| MillerRabin.StrongIsFermat | os_net/comp_networking/examples/tls_inspect.py:66-75 | a base that passes a round satisfies a^(n - 1) = 1 modulo n |
| MillerRabin.PrimeIsStrong | os_net/comp_networking/examples/tls_inspect.py:65-76 | every base is a strong witness for a prime |
| MillerRabin.PrimeAccepted | os_net/comp_networking/examples/tls_inspect.py:54-76 | a prime is accepted for every number of rounds and every choice of bases, so a False answer proves the number is not prime |
| MillerRabin.ExactBelow1681 | os_net/comp_networking/examples/tls_inspect.py:56-60 | below 41 squared the answer is exactly primality, whatever the draws |
| Bytes.FromTo | os_net/comp_networking/examples/tls_inspect.py:202-203 | from_bytes undoes to_bytes where the number fits |
| Bytes.ToFrom | os_net/comp_networking/examples/tls_inspect.py:202-203 | to_bytes undoes from_bytes at the same length |
| Bytes.BigEndian | os_net/comp_networking/examples/tls_inspect.py:202-203 | byte i of to_bytes is the number divided by 256 to the power of the bytes behind it, modulo 256 |
| Bytes.ByteLengthBounds | os_net/comp_networking/examples/tls_inspect.py:198-198 | a number has exactly (bit_length + 7) // 8 base-256 digits |
| Der.DerRoundTrip | os_net/comp_networking/examples/tls_inspect.py:104-112 | an independent reader recovers tag, body and what follows from the encoder's output, short and long lengths |
| Der.LongLength | os_net/comp_networking/examples/tls_inspect.py:104-108 | from 128 on the length is 128 plus the count of length bytes, then the length big-endian without a leading zero |
| Der.ArcsRoundTrip | os_net/comp_networking/examples/tls_inspect.py:136-147 | base-128 groups with continuation bits read back to the same arcs |
| Der.CollectGroups | os_net/comp_networking/examples/tls_inspect.py:140-143 | the inner loop collects the seven-bit groups, lowest first |
| Der.Emit | os_net/comp_networking/examples/tls_inspect.py:144-146 | the groups come out highest first, all but the last marked |
| Der.EncodeArc | os_net/comp_networking/examples/tls_inspect.py:136-147 | one arc, zero included, is the recursive definition |
| Der.EncodeOid | os_net/comp_networking/examples/tls_inspect.py:133-148 | the body reads back to the arcs after the first two |
| Rsa.InverseOfPrime | os_net/comp_networking/examples/tls_inspect.py:96-98 | the extended Euclid inverse of a prime is an inverse modulo anything the prime does not divide |
| Rsa.CoprimeIff | os_net/comp_networking/examples/tls_inspect.py:96-98 | extended Euclid ends with 1 exactly when there is no common divisor |
| Rsa.PublicExponentPrime | os_net/comp_networking/examples/tls_inspect.py:88-95 | 65537 is prime, so phi % e != 0 makes e invertible |
| Rsa.Recover | os_net/comp_networking/examples/tls_inspect.py:93-98 | raising to d * e is the identity modulo n, for every number, multiples of p or q included |
| Rsa.SignThenVerify | os_net/comp_networking/examples/tls_inspect.py:202-203 | raising the signature to e gives every block below n back |
| Rsa.CrtAgrees | os_net/comp_networking/examples/tls_inspect.py:97-98 | the key's dp, dq and qinv compute the same power by the Chinese remainder step |
| Rsa.OidBytes | os_net/comp_networking/examples/tls_inspect.py:133-169 | the SHA-256 identifier encodes to the standard's bytes |
| Rsa.DigestInfoIsStandard | os_net/comp_networking/examples/tls_inspect.py:197-199 | the digest info is the fixed prefix of section 9.2 of RFC 8017 followed by the hash |
| Rsa.BlockLength | os_net/comp_networking/examples/tls_inspect.py:198-201 | the padded block is exactly emlen bytes if and only if emlen is at least 54, and then 00 01, padding, 00 and the digest info |
| Rsa.PaddingLength | os_net/comp_networking/examples/tls_inspect.py:200-201 | the padding is emlen - 54 bytes of ones, so at least the eight demanded exactly from 62 bytes on |
| Rsa.BlockBelowModulus | os_net/comp_networking/examples/tls_inspect.py:198-202 | the block as a number is below n |
| Rsa.SignatureVerifies | os_net/comp_networking/examples/tls_inspect.py:195-203 | for every valid key of at least 54 bytes and every hash, opening the signature bytes with the public key gives the padded block |
| KeyGen.CandidateRange | os_net/comp_networking/examples/tls_inspect.py:81-81 | a candidate has exactly the bits asked for and is odd |
| KeyGen.CandidateIs | os_net/comp_networking/examples/tls_inspect.py:81-81 | a candidate of two bits or more is the number drawn, plus 2^(bits - 1) if it was below that, plus 1 if it was even |
| KeyGen.GenPrime | os_net/comp_networking/examples/tls_inspect.py:79-83 | the first candidate that the test accepts, and none exactly when the draws hold no such candidate |
| KeyGen.TryKey | os_net/comp_networking/examples/tls_inspect.py:91-98 | for any two candidates a pass gives up exactly for equal ones or phi % e == 0, raises exactly for a common divisor, and otherwise gives a key whose parameters fit together; primes never raise and give a valid key |
| KeyGen.ModulusLength | os_net/comp_networking/examples/tls_inspect.py:86-98 | a key of at least 426 bits has a modulus of at least 54 bytes |
| KeyGen.GeneratedKeySigns | os_net/comp_networking/examples/tls_inspect.py:86-203 | every key generated from 426 bits on whose factors are prime signs every hash verifiably |
| KeyGen.GenerateRsa | os_net/comp_networking/examples/tls_inspect.py:86-98 | no answer exactly when every pass retries until the draws end; otherwise the answer comes from the first pass that does not retry and its first accepted candidates p and q: the ValueError exactly when they have a common divisor, else the key of p and q, well formed, with e = 65537, d below phi, factors of half the bits each, signing verifiably if they are prime |
| KeyGen.SettlesIsNotExhausted | os_net/comp_networking/examples/tls_inspect.py:89-98 | draws that lead to an answer are not draws that run out, so the two cases exclude each other |
| DnsName.ReadName | os_net/comp_networking/examples/dns_query.py:73-106 | the loop, with its guard of 128 steps, jump flag and remembered offset, computes the recursive reader |
| DnsName.ReadExactly | os_net/comp_networking/examples/dns_query.py:73-106 | on any bytes, cycles included, a name is returned exactly when following labels and pointers for at most 128 steps spells it, with the offset just after the first pointer |
| DnsName.PlainRoundTrip | os_net/comp_networking/examples/dns_query.py:44-56 | an encoding is read back, wherever it sits, exactly when every label has at most 191 bytes and there are at most 127 labels |
| DnsName.PlainRead | os_net/comp_networking/examples/dns_query.py:85-106 | the same for any remaining number of steps |
| DnsName.NamesAreReadable | os_net/comp_networking/examples/dns_query.py:85-105 | every name returned has labels of 1 to 191 bytes and fewer labels than steps |
| DnsName.CompressedRoundTrip | os_net/comp_networking/examples/dns_query.py:90-97 | replacing any tail by a pointer below 16384 to an encoding of that tail, itself plain or with pointers, gives the same name, ending just after the pointer |
| DnsName.PointerValue | os_net/comp_networking/examples/dns_query.py:90-93 | a pointer's two bytes are the number 49152 + target |
| DnsName.TailReplaced | os_net/comp_networking/examples/dns_query.py:73-106 | the same for one pointer to a plain encoding and at most 127 labels and pointers together |
| DnsName.EncodedRead | os_net/comp_networking/examples/dns_query.py:73-106 | every encoding, through any chain of pointers, is read as the labels it encodes |
| DnsName.ReadIsEncoded | os_net/comp_networking/examples/dns_query.py:73-106 | every name returned stands encoded, by labels and pointers, where it was read |
| DnsName.ReadIffEncoded | os_net/comp_networking/examples/dns_query.py:73-106 | a name is returned exactly when at most the step limit's number of labels, pointers and end mark encode it there |
| Strings.JoinSplit | os_net/comp_networking/examples/dns_query.py:50-50 | joining undoes splitting at dots |
| Strings.SplitJoin | os_net/comp_networking/examples/token_bucket_ratelimiter.py:85-88 | splitting undoes joining parts without the separator |
| DnsText.EncodeQname | os_net/comp_networking/examples/dns_query.py:44-56 | fails exactly for a label that is not ASCII or longer than 255, with the exception of the first such label; otherwise the encoding of the non-empty labels |
| DnsText.TextRoundTrip | os_net/comp_networking/examples/dns_query.py:44-106 | reading back an encoded name gives its text without empty labels, and the very text if it had none |
| DnsText.BuildQuery | os_net/comp_networking/examples/dns_query.py:59-70 | the packet built, which error comes first otherwise, and that parsing the packet gives the same id, rcode 0, one question and no answers |
| DnsMessage.SkipSection | os_net/comp_networking/examples/dns_query.py:115-118 | the question loop computes the specification's end of section |
| DnsMessage.ReadRecord | os_net/comp_networking/examples/dns_query.py:122-134 | one record with its address as dotted text, all ways to fail included |
| DnsMessage.DottedInjective | os_net/comp_networking/examples/dns_query.py:129-130 | the dotted text determines the address bytes |
| DnsMessage.ReadSection | os_net/comp_networking/examples/dns_query.py:120-134 | the answer loop computes the specification's list of records |
| DnsMessage.ParseResponse | os_net/comp_networking/examples/dns_query.py:109-136 | the whole parser, names within 128 steps, computes the specification, errors included |
| DnsMessage.ReadWire | os_net/comp_networking/examples/dns_query.py:85-106 | a name written plainly or with a pointer is read as the name that was written, ending right behind it |
| DnsMessage.ParseInvertsSerialize | os_net/comp_networking/examples/dns_query.py:109-136 | for every list of questions and records, names written plainly or with pointers to encodings in the message, parsing recovers header, counts and all records in order, each with the name given to the serializer |
| DnsMessage.ParsedAnswers | os_net/comp_networking/examples/dns_query.py:109-136 | the same record by record: class, ttl and type are the serializer's; the value is there exactly for type 1 with four data bytes, and then splitting it at dots gives four numerals of digits without leading zeros whose values are the four bytes in order |
| DnsMessage.FieldLayout | os_net/comp_networking/examples/dns_query.py:122-125 | where type, class, ttl, data length and data stand in a serialized record, byte by byte |
| DnsMessage.KeptRecovers | os_net/comp_networking/examples/dns_query.py:128-134 | the record kept for a serialized one has its type, class and ttl and, exactly for type 1 with four bytes, their dotted text |
| DnsMessage.ReplyParses | os_net/comp_networking/examples/dns_query.py:109-136 | every reply whose records point back at its question parses to those records under the name asked for |
| DnsMessage.QueryParses | os_net/comp_networking/examples/dns_query.py:59-70 | every query packet parses to the same id, rcode 0, one question, no answers |
| DnsMessage.QueryLayout | os_net/comp_networking/examples/dns_query.py:63-70 | a query packet begins with the id's two bytes and 01 00 00 01 00 00 00 00 00 00 and ends with the type's two bytes and 00 01 |
| DnsMessage.QueryName | os_net/comp_networking/examples/dns_query.py:69-70 | reading the packet's name at offset 12 gives the labels asked for, ending four bytes before the end |
| Chunked.FindStable | os_net/comp_networking/examples/http_client.py:114-124 | a marker once found stays where it is whatever arrives later |
| Chunked.FindMeans | os_net/comp_networking/examples/http_client.py:92-95 | the position found holds the marker and no earlier one does; -1 means none does |
| Chunked.SizeOfHex | os_net/comp_networking/examples/http_client.py:55-57 | reading a chunk size undoes writing it |
| Chunked.SizeOfDigits | os_net/comp_networking/examples/http_client.py:125-126 | a size line of hexadecimal digits, in either case and with leading zeros, means the number they write, with or without an extension behind a semicolon |
| Chunked.SizeOfPadded | os_net/comp_networking/examples/http_client.py:125-126 | so it does with white space around the digits; white space alone means zero |
| Chunked.IntOfSigned | os_net/comp_networking/examples/http_client.py:126-126 | a minus sign negates the digits' number, a plus sign keeps it |
| Chunked.MagnitudeOfPrefixed | os_net/comp_networking/examples/http_client.py:126-126 | 0x or 0X before the digits changes nothing |
| Chunked.DigitsIff | os_net/comp_networking/examples/http_client.py:126-126 | a numeral is valid exactly when it has only digits of the base and single underscores between them |
| Chunked.DecodeChunk | os_net/comp_networking/examples/http_client.py:55-57 | a written chunk decodes to its piece, then the rest, also for pieces containing CRLF |
| Chunked.DecodeUndoesWrite | os_net/comp_networking/examples/http_client.py:55-57 | decoding the server's output gives the joined pieces, up to the first empty one, whatever follows |
| Chunked.DecodeParts | os_net/comp_networking/examples/http_client.py:109-139 | every chunked body of section 7.1 of RFC 9112, sizes in either case, leading zeros and extensions included, decodes to its data, whatever trailer follows the last chunk's size |
| Chunked.WriteIsParts | os_net/comp_networking/examples/http_client.py:55-57 | the server's output is such a body, piece for chunk, ending in 0 CRLF CRLF |
| HttpClient.Socket.Recv | os_net/comp_networking/examples/http_client.py:87-91 | the adversary: any non-empty fragment of at most 4096 bytes, and empty exactly at the end |
| HttpClient.Fill | os_net/comp_networking/examples/http_client.py:114-120 | the loop receives exactly until the marker or the end |
| HttpClient.FillCount | os_net/comp_networking/examples/http_client.py:132-136 | the loop receives exactly until the count or the end |
| HttpClient.TakeChunk | os_net/comp_networking/examples/http_client.py:131-138 | a chunk's data and the buffer after it, slices of negative sizes included |
| HttpClient.TakeTurn | os_net/comp_networking/examples/http_client.py:122-138 | one turn of the chunk loop |
| HttpClient.DecodeChunked | os_net/comp_networking/examples/http_client.py:109-139 | the whole loop, for every stream, terminates with the specification's outcome |
| HttpClient.LoopIsDecode | os_net/comp_networking/examples/http_client.py:109-139 | for all streams with non-negative sizes, truncated and malformed ones included, the result is a function of the bytes alone |
| HttpClient.FragmentationIrrelevant | os_net/comp_networking/examples/http_client.py:109-139 | two ways to split one stream into prefetched bytes and fragments give one result |
| HttpClient.ServerToClient | os_net/comp_networking/examples/http_client.py:55-139 | what the server writes reaches the client, however it is fragmented |
| Chunked.NegativeIffStops | os_net/comp_networking/examples/http_client.py:122-138 | the scan for a first negative size finds one exactly for the streams to which the decoding gives no meaning |
| ChunkedDelivery.NegativeMatters | os_net/comp_networking/examples/http_client.py:126-138 | after any chunks, at a negative size however spelled and the last such: delivery matters exactly when two lengths that may be buffered there lead to different results |
| ChunkedDelivery.MinusOneMatters | os_net/comp_networking/examples/http_client.py:126-138 | for -1: exactly when at least two bytes follow and all but the first decode |
| ChunkedDelivery.MinusTwoMatters | os_net/comp_networking/examples/http_client.py:126-138 | for -2: exactly when at least three bytes follow and they decode |
| ChunkedDelivery.SmallerMatters | os_net/comp_networking/examples/http_client.py:126-138 | for -k, k at least 3: exactly when two lengths b give different results, each all but the last k of b bytes as data and then decoding from k - 2 bytes back |
| DeliveryOutcomes.EveryResultPossible | os_net/comp_networking/examples/http_client.py:109-139 | every delivery's result is one that a semantics over stream and buffered length allows, for all sizes |
| DeliveryOutcomes.SomeDeliveryGives | os_net/comp_networking/examples/http_client.py:109-139 | every result it allows is given by some delivery in fragments of at most 4096 bytes |
| DeliveryOutcomes.PossibleIff | os_net/comp_networking/examples/http_client.py:109-139 | both together, for each number of prefetched bytes |
| DeliveryOutcomes.DeliveryMattersIff | os_net/comp_networking/examples/http_client.py:109-139 | for every stream, any number of negative sizes included, delivery matters exactly when two results are allowed |
| HttpHead.ParseHeaders | os_net/comp_networking/examples/http_client.py:166-172 | the loop builds a dictionary that has for each name, in any case, the value of its last line |
| HttpHead.ParseHead | os_net/comp_networking/examples/http_client.py:159-178 | status and framing fields as read from the head's bytes, errors included |
| HttpHead.FieldsRead | os_net/comp_networking/examples/http_client.py:166-172 | written header fields are read back, the last of a name winning |
| HttpHead.LinesOfJoin | os_net/comp_networking/examples/http_client.py:159-159 | splitting the head at line ends undoes joining its lines |
| HttpHead.HeadEnds | os_net/comp_networking/examples/http_client.py:157-158 | the first blank line behind non-empty lines is the one that ends them |
| HttpResponse.ReadUntil | os_net/comp_networking/examples/http_client.py:84-95 | what precedes the marker, and what is left in buffer and socket, are those of the stream |
| HttpResponse.RecvExactly | os_net/comp_networking/examples/http_client.py:98-106 | the first n bytes of the stream or all there are, nothing lost; a negative n cuts the prefetched bytes |
| HttpResponse.RecvAll | os_net/comp_networking/examples/http_client.py:181-188 | the rest of the stream to its end |
| HttpResponse.ReadFramed | os_net/comp_networking/examples/http_client.py:174-188 | chunked before content-length before end-of-file, for all sizes |
| HttpResponse.HttpGet | os_net/comp_networking/examples/http_client.py:157-190 | head, framing and body together are the specification on the fragments, for all sizes |
| HttpResponse.GotIsResponse | os_net/comp_networking/examples/http_client.py:157-190 | unless a size or the length is negative, the body is a function of the byte stream alone |
| HttpResponse.ServedChunked | os_net/comp_networking/examples/http_client.py:43-190 | a response with the server's head and chunks gives the client the pieces, however fragmented, whatever the other fields |
| HttpResponse.ServedLength | os_net/comp_networking/examples/http_client.py:43-190 | a response with a content length gives the client the body, however fragmented |
| ServedText.ChunkedText | os_net/comp_networking/examples/http_client.py:43-190 | over literal bytes: a response whose last field spelled Transfer-Encoding, in any case of letters, says chunked in any case, with any other fields, blanks and tabs around values, and any chunked body, gives the client the chunks' data under every fragmentation |
| ServedText.LengthText | os_net/comp_networking/examples/http_client.py:43-190 | likewise, not chunked, with the decimal digits of the body's length in the last Content-Length: the client returns the body, whatever follows |
| ServedText.OpenText | os_net/comp_networking/examples/http_client.py:180-188 | likewise with neither: everything up to the end of the stream |
| ServedText.SpelledIff | os_net/comp_networking/examples/http_client.py:171-174 | lower-casing makes two words equal exactly when they differ in the case of letters only |
| ServedText.ChunkedIff | os_net/comp_networking/examples/http_client.py:174-174 | the fields are read as announcing chunks exactly when the last Transfer-Encoding says so |
| HttpResponse.NegativeLengthMatters | os_net/comp_networking/examples/http_client.py:98-106 | with a content length of -k the fragments matter exactly when more than k bytes follow the head and k + 1 is below 4096 |
| Bits.AndShifted | os_net/comp_networking/examples/subnet_calculator.py:50-54 | masking with m << k clears k bits and masks the rest |
| Ipv4.IntRoundTrip | os_net/comp_networking/examples/subnet_calculator.py:41-47 | printing and reading an integer keeps its low 32 bits |
| Ipv4.IpRoundTrip | os_net/comp_networking/examples/subnet_calculator.py:41-47 | reading and printing an address gives it back |
| Ipv4.IpValue | os_net/comp_networking/examples/subnet_calculator.py:41-43 | an address a.b.c.d is the number a * 2^24 + b * 2^16 + c * 2^8 + d |
| Ipv4.MaskValue | os_net/comp_networking/examples/subnet_calculator.py:50-54 | the shifted and truncated mask is 2^32 - 2^(32 - prefix), prefix 0 included |
| Ipv4.OfIsCidr | os_net/comp_networking/examples/subnet_calculator.py:60-67 | network and broadcast by bit operations are the aligned block of 2^(32 - prefix) addresses around the address |
| Ipv4.NewSubnet | os_net/comp_networking/examples/subnet_calculator.py:60-67 | a block built from a printed integer wraps at 2^32 |
| Ipv4.MaskTest | os_net/comp_networking/examples/subnet_calculator.py:161-161 | the mask comparison holds exactly for the addresses of the block |
| Subnets.NestedOrApart | os_net/comp_networking/examples/subnet_calculator.py:57-67 | two blocks that share an address are nested, the longer prefix inside |
| Subnets.EndToEndTiles | os_net/comp_networking/examples/subnet_calculator.py:101-110 | blocks laid end to end are pairwise disjoint, inside the range, and cover it |
| Subnets.Split | os_net/comp_networking/examples/subnet_calculator.py:101-110 | fails exactly for a prefix that is not longer or beyond 32; otherwise 2^difference equal blocks end to end over the parent |
| Subnets.RoutingTable.Add | os_net/comp_networking/examples/subnet_calculator.py:151-153 | appends a route for the block of that prefix around the address |
| Subnets.Match | os_net/comp_networking/examples/subnet_calculator.py:158-164 | the loop returns the first of the longest matches, nothing when nothing matches |
| Subnets.RoutingTable.Lookup | os_net/comp_networking/examples/subnet_calculator.py:155-164 | the same for the table |
| Subnets.WinnerIsInnermost | os_net/comp_networking/examples/subnet_calculator.py:155-164 | the winner's block lies inside every matching block |
| Vlsm.FindPrefix | os_net/comp_networking/examples/subnet_calculator.py:129-135 | the inner loop finds /32 for at most one host, /31 for two, for up to 2^32 - 2 the prefix p with 2^(32 - p) - 2 >= hosts > 2^(31 - p) - 2, and /0 beyond, independent of the cursor |
| Vlsm.BlockCovers | os_net/comp_networking/examples/subnet_calculator.py:129-136 | the block chosen has as many addresses that a host can be given as requested exactly when that is at most 2^32 - 2; all addresses of a /31 or /32, all but network and broadcast otherwise |
| Vlsm.BlockMinimal | os_net/comp_networking/examples/subnet_calculator.py:129-136 | every block that covers the request is at least as large |
| Vlsm.BlockIs | os_net/comp_networking/examples/subnet_calculator.py:129-135 | by arithmetic on sizes alone: one address for at most one host, two for two, for 3 up to 2^32 - 2 the least power of two that is at least hosts + 2, all 2^32 beyond |
| Vlsm.UsableCounts | os_net/comp_networking/examples/subnet_calculator.py:82-87 | usable_hosts is the number of addresses of the block, without network and broadcast below /31 |
| Vlsm.SortSorts | os_net/comp_networking/examples/subnet_calculator.py:125-125 | largest request first |
| Vlsm.SortPermutes | os_net/comp_networking/examples/subnet_calculator.py:125-125 | sorting loses and adds nothing |
| Vlsm.SortStable | os_net/comp_networking/examples/subnet_calculator.py:125-125 | equal requests keep their order |
| Vlsm.AllocateAll | os_net/comp_networking/examples/subnet_calculator.py:126-141 | the outer loop computes the recursive specification, the assertion included |
| Vlsm.VlsmAllocate | os_net/comp_networking/examples/subnet_calculator.py:116-141 | the whole operation does |
| Vlsm.VlsmPacks | os_net/comp_networking/examples/subnet_calculator.py:116-141 | when the minimal blocks fit, the plan answers the requests in order with minimal aligned blocks end to end from the parent's network |
| Vlsm.ServedFits | os_net/comp_networking/examples/subnet_calculator.py:116-141 | if any disjoint allocation inside the parent exists, the minimal block sizes sum to at most the parent's size |
| Vlsm.WorksIff | os_net/comp_networking/examples/subnet_calculator.py:116-141 | the result is a disjoint covering allocation inside the parent exactly when the minimal blocks sum to at most the parent's size and no request exceeds 2^32 - 2 |
| Vlsm.WorksWheneverPossible | os_net/comp_networking/examples/subnet_calculator.py:116-141 | whenever any disjoint allocation exists this one works |
| Vlsm.FailsIff | os_net/comp_networking/examples/subnet_calculator.py:137-138 | the assertion fires exactly when the blocks do not fit, the parent does not end at the top of the address space, and it is not a single overhanging request |
| Vlsm.EscapesBelow | os_net/comp_networking/examples/subnet_calculator.py:136-138 | 10.0.1.0/24 asked for 300 hosts is given 10.0.0.0/23 |
| HashRing.InsortIs | os_net/comp_networking/examples/consistent_hash.py:71-71 | inserting is placing at bisect_right |
| HashRing.ExtractIs | os_net/comp_networking/examples/consistent_hash.py:82-85 | removing is popping at bisect_left when the position is there |
| HashRing.AddRing | os_net/comp_networking/examples/consistent_hash.py:67-71 | adding overwrites exactly the node's positions |
| HashRing.AddCount | os_net/comp_networking/examples/consistent_hash.py:67-71 | adding puts one sorted entry for each point, colliding or not |
| HashRing.RemoveRing | os_net/comp_networking/examples/consistent_hash.py:77-81 | removing frees exactly the positions the node still owns |
| HashRing.RemoveCount | os_net/comp_networking/examples/consistent_hash.py:77-85 | removing takes one sorted entry for each position freed, however many fell there |
| HashRing.AddKeeps | os_net/comp_networking/examples/consistent_hash.py:63-71 | adding keeps sorted positions and map in step, collisions or not |
| HashRing.AddMovesOnlyToIt | os_net/comp_networking/examples/consistent_hash.py:63-96 | adding a node changes a lookup only to that node, collisions or not |
| HashRing.RemoveMovesOnlyItsOwn | os_net/comp_networking/examples/consistent_hash.py:73-96 | removing a node changes only lookups it owned |
| HashRing.RemoveAlignedIff | os_net/comp_networking/examples/consistent_hash.py:80-85 | positions and map stay in step after a removal exactly when the node owned no position with two entries |
| HashRing.DanglingFails | os_net/comp_networking/examples/consistent_hash.py:87-96 | a sorted position without owner makes some lookup fail |
| HashRing.RunGood | os_net/comp_networking/examples/consistent_hash.py:63-85 | without collisions every history leaves exactly the points of the present nodes |
| HashRing.HistoryIrrelevant | os_net/comp_networking/examples/consistent_hash.py:63-96 | without collisions two histories with one final node set have one state and one answer for every position |
| HashRing.LookupIsClockwise | os_net/comp_networking/examples/consistent_hash.py:87-96 | the answer is the node with the first point clockwise among the node set's points, defined on the points alone without a ring |
| HashRing.OwnerFromHistory | os_net/comp_networking/examples/consistent_hash.py:63-96 | after any history without collisions a position belongs to node n exactly when n's last call added it and one of its points comes first, strictly clockwise of the position, among those of all nodes whose last call added them |
| HashRing.NodesArePresent | os_net/comp_networking/examples/consistent_hash.py:63-77 | whatever collides, the node set holds exactly the nodes whose last call added them |
| HashRing.CollisionFails | os_net/comp_networking/examples/consistent_hash.py:80-85 | any collision of two nodes: both join, the later leaves, some lookup fails |
| HashRing.SafeIffNoCollision | os_net/comp_networking/examples/consistent_hash.py:63-96 | over a set of nodes no history makes a lookup fail exactly when no two of their points collide |
| HashRing.NodesDecideIff | os_net/comp_networking/examples/consistent_hash.py:63-96 | over all histories lookups depend on the final node set alone exactly when no two points collide |
| HashRing.ConsistentHashRing.constructor | os_net/comp_networking/examples/consistent_hash.py:44-52 | the state after adding the initial nodes in order |
| HashRing.ConsistentHashRing.AddNode | os_net/comp_networking/examples/consistent_hash.py:63-71 | the loop computes the specification's add |
| HashRing.ConsistentHashRing.RemoveNode | os_net/comp_networking/examples/consistent_hash.py:73-85 | the loop computes the specification's remove |
| HashRing.ConsistentHashRing.GetNode | os_net/comp_networking/examples/consistent_hash.py:87-96 | the answer is the specification's lookup, the empty ring and a missing owner included |
| CircuitBreaker.NoAdmissionDuringCooldown | os_net/operating_system/examples/circuit_breaker.py:65-110 | in every interleaving with a non-decreasing clock, after a failure trips or re-trips at t every admission before t + cooldown is rejected |
| CircuitBreaker.OnlyAdmissionLeavesOpen | os_net/operating_system/examples/circuit_breaker.py:69-76 | in every run OPEN is left only by an admission, to HALF_OPEN, when the cooldown of every earlier trip and re-trip is over |
| CircuitBreaker.OpenAdmitsIff | os_net/operating_system/examples/circuit_breaker.py:68-76 | in every run, OPEN admits a call and goes to HALF_OPEN exactly when the cooldown since the last tripping failure is over, however many calls were rejected before; otherwise only the rejection is counted |
| CircuitBreaker.OpenSince | os_net/operating_system/examples/circuit_breaker.py:100-110 | OPEN dates from the last tripping failure of the run |
| CircuitBreaker.RejectedCounts | os_net/operating_system/examples/circuit_breaker.py:58-76 | rejected_calls is the number of admission checks that left OPEN as it was |
| CircuitBreaker.FailuresCount | os_net/operating_system/examples/circuit_breaker.py:89-110 | in every state the failure count is the number of failures met outside HALF_OPEN since the last success that was met outside it or closed it |
| CircuitBreaker.OpenRetripsIff | os_net/operating_system/examples/circuit_breaker.py:106-110 | a late failure met in OPEN restarts the cooldown exactly when that count reaches the threshold |
| CircuitBreaker.ClosedCounts | os_net/operating_system/examples/circuit_breaker.py:89-110 | while CLOSED the count is the trailing run of failures among the completions, below the threshold |
| CircuitBreaker.ClosedTripsIff | os_net/operating_system/examples/circuit_breaker.py:106-110 | a failure trips CLOSED exactly when the trailing run reaches the threshold |
| CircuitBreaker.HalfOpenCounts | os_net/operating_system/examples/circuit_breaker.py:69-97 | HALF_OPEN was entered by an admission, nothing failed since, and it counts the successes since |
| CircuitBreaker.ClosesAfterSuccesses | os_net/operating_system/examples/circuit_breaker.py:89-105 | HALF_OPEN closes exactly on the success_threshold-th success since entry with no failure, and reopens exactly on a failure |
| CircuitBreaker.ManyProbes | os_net/operating_system/examples/circuit_breaker.py:68-76 | any number of threads is admitted together after a cooldown |
| CircuitBreaker.SingleProbeIff | os_net/operating_system/examples/circuit_breaker.py:68-76 | at most one call is under way in HALF_OPEN in all runs exactly when there is at most one thread |
| CircuitBreaker.CircuitBreaker.constructor | os_net/operating_system/examples/circuit_breaker.py:48-58 | the closed initial state |
| CircuitBreaker.CircuitBreaker.Enter | os_net/operating_system/examples/circuit_breaker.py:68-76 | the admission check is the model's step |
| CircuitBreaker.CircuitBreaker.Succeeded | os_net/operating_system/examples/circuit_breaker.py:89-98 | the success report is the model's step, in every state |
| CircuitBreaker.CircuitBreaker.Failed | os_net/operating_system/examples/circuit_breaker.py:100-110 | the failure report is the model's step, in every state |
| CircuitBreaker.CircuitBreaker.Call | os_net/operating_system/examples/circuit_breaker.py:65-87 | an undisturbed call is the admission step and, if admitted, its completion |
| TokenBucket.Conserved | os_net/comp_networking/examples/token_bucket_ratelimiter.py:55-69 | over any run, tokens at the start plus accrual equal what was admitted, what overflowed the capacity and what is left |
| TokenBucket.AdmittedBound | os_net/comp_networking/examples/token_bucket_ratelimiter.py:48-69 | over any stretch of calls the admitted cost is at most capacity plus rate times the advance of last, with clock readings in any order |
| TokenBucket.RefillTwice | os_net/comp_networking/examples/token_bucket_ratelimiter.py:55-60 | lazy capped refills compose |
| TokenBucket.DeniedLeavesNoTrace | os_net/comp_networking/examples/token_bucket_ratelimiter.py:55-69 | with a non-decreasing clock a denied call changes no later answer |
| TokenBucket.DeniedMattersBackwards | os_net/comp_networking/examples/token_bucket_ratelimiter.py:55-69 | with a clock stepping back it changes the next answer exactly when the cost lies between the two levels |
| TokenBucket.DeniedShowsIff | os_net/comp_networking/examples/token_bucket_ratelimiter.py:55-69 | when clock readings may step back some later run is answered differently exactly when the denied call moved the recorded time and rate and capacity are positive |
| TokenBucket.LevelIs | os_net/comp_networking/examples/token_bucket_ratelimiter.py:55-69 | the level at any time is the tightest bound the history sets |
| TokenBucket.AllowedIffConforms | os_net/comp_networking/examples/token_bucket_ratelimiter.py:62-69 | a call is allowed exactly when, from every earlier call on, the cost taken stays within capacity plus the accrual since |
| TokenBucket.AllowedIffWithin | os_net/comp_networking/examples/token_bucket_ratelimiter.py:62-69 | the next answer from the answers before: allowed exactly when the cost, and what was granted from any earlier call i on together with it, stays within capacity + (now - time of i) * rate |
| TokenBucket.BucketsAgree | os_net/operating_system/examples/rate_limiter.py:53-69 | with a monotonic clock the unconditional refill gives the same answers and states on every run |
| TokenBucket.RateLimiter.constructor | os_net/comp_networking/examples/token_bucket_ratelimiter.py:49-53 | a full bucket |
| TokenBucket.RateLimiter.RefillAt | os_net/comp_networking/examples/token_bucket_ratelimiter.py:55-60 | the guarded refill |
| TokenBucket.RateLimiter.Allow | os_net/comp_networking/examples/token_bucket_ratelimiter.py:62-69 | answer and new state are the model's |
| TokenBucket.LockedTokenBucket.RefillAt | os_net/operating_system/examples/rate_limiter.py:53-60 | the unconditional refill |
| TokenBucket.LockedTokenBucket.Allow | os_net/operating_system/examples/rate_limiter.py:62-69 | answer and new state are the unguarded model's |
| ReplayGuard.Remembered | os_net/comp_networking/examples/token_bucket_ratelimiter.py:107-140 | an accepted nonce stays in the store, through garbage collection and any other requests, until its time to live is over |
| ReplayGuard.NotWithinTtl | os_net/comp_networking/examples/token_bucket_ratelimiter.py:131-140 | a nonce is not accepted again within its time to live |
| ReplayGuard.NoReplay | os_net/comp_networking/examples/token_bucket_ratelimiter.py:101-140 | with ttl > 2 * skew no run with a non-decreasing clock accepts one timestamp and nonce twice |
| ReplayGuard.TwiceAccepted | os_net/comp_networking/examples/token_bucket_ratelimiter.py:119-140 | with ttl <= 2 * skew a signed request sent early is accepted again at the latest moment |
| ReplayGuard.ReplayableIff | os_net/comp_networking/examples/token_bucket_ratelimiter.py:101-140 | some run accepts a request twice exactly when 0 <= skew and ttl <= 2 * skew |
| ReplayGuard.AcceptedWasSigned | os_net/comp_networking/examples/token_bucket_ratelimiter.py:119-140 | in any run an accepted request carries the HMAC of its five lines, verb in capitals, path, timestamp, nonce and body digest, joined by newlines, and is within the skew |
| ReplayGuard.VerdictIs | os_net/comp_networking/examples/token_bucket_ratelimiter.py:119-140 | each verdict's exact condition on clock, signature over the spelled-out text, and store: stale outside the skew, bad-signature within it if the HMAC differs, replayed if the HMAC agrees and the nonce is alive, accepted otherwise |
| ReplayGuard.Provenance | os_net/comp_networking/examples/token_bucket_ratelimiter.py:135-139 | every entry of the store came from an accepted request |
| ReplayGuard.AcceptedIffFresh | os_net/comp_networking/examples/token_bucket_ratelimiter.py:90-140 | in any run a timely signed request is accepted exactly when every request accepted before with its nonce is a time to live ago |
| ReplayGuard.ForgeriesLeaveNoTrace | os_net/comp_networking/examples/token_bucket_ratelimiter.py:119-131 | stale and forged requests, wherever they occur in a run, leave the store as if they had not been sent |
| ReplayGuard.CanonicalInjective | os_net/comp_networking/examples/token_bucket_ratelimiter.py:82-88 | without newlines in the fields the signed text determines them all |
| ReplayGuard.UnambiguousIff | os_net/comp_networking/examples/token_bucket_ratelimiter.py:82-88 | for one verb and body the text determines path, timestamp and nonce exactly when no line of the path but its first and none of the nonce but its last is a numeral |
| ReplayGuard.SignatureVerifier.constructor | os_net/comp_networking/examples/token_bucket_ratelimiter.py:101-105 | an empty store |
| ReplayGuard.SignatureVerifier.CollectGarbage | os_net/comp_networking/examples/token_bucket_ratelimiter.py:107-110 | exactly the entries that expire after now remain |
| ReplayGuard.SignatureVerifier.Verify | os_net/comp_networking/examples/token_bucket_ratelimiter.py:112-140 | verdict and store are the model's, the order of the three checks included; each of the three refusals has its exact condition on skew, HMAC of the spelled-out text and live nonce |
| SlidingWindow.DequeIsHistory | os_net/operating_system/examples/rate_limiter.py:81-91 | from the last cutoff on the deque and the full history prune alike |
| SlidingWindow.AllowedIffCount | os_net/operating_system/examples/rate_limiter.py:81-91 | with a non-decreasing clock the answer is that of counting the full history of admitted requests in (now - window, now] |
| SlidingWindow.AdmittedIffFew | os_net/operating_system/examples/rate_limiter.py:81-91 | the next call is admitted exactly when fewer than limit admitted ones have times in (now - window, now] |
| SlidingWindow.NoWindowExceeds | os_net/operating_system/examples/rate_limiter.py:72-91 | for every time t, not only call times, at most limit requests were admitted in (t - window, t] |
| SlidingWindow.SlidingWindowLog.constructor | os_net/operating_system/examples/rate_limiter.py:75-79 | an empty log |
| SlidingWindow.SlidingWindowLog.Allow | os_net/operating_system/examples/rate_limiter.py:81-91 | the eviction loop and the answer are the model's |

## Left out

- The Markdown chapters: prose without an implementation behind it.
- Sockets, TLS handshakes, PEM files, HTTP servers and real thread scheduling: the models start from the bytes received and from the steps under each lock.
- `worker_pool.py`, `graceful_shutdown.py` and `run_with_stdlib_queue`: they rest on `queue.Queue`, whose code is not part of the repository.
- `fixed_with_trylock`: its retries can go on for ever under an adversarial scheduler, which leaves only safety.
- The timeout on the second lock in `demonstrate_deadlock`: the model shows the stuck state that the timeout detects.
- `reverse_proxy.py`, `supervisor.py`, the `/proc` and cgroup readers and the other probes: relaying, tallies and thresholds.
- The error probability of Miller-Rabin on composites and the balance of load on the hash ring: probabilistic claims the code does not decide.
- X.509 certificates and PKCS#8 keys beyond the encoders used by the signature: more of the same encoding.
- The text form of addresses and prefix lengths, and the reason and other fields of the response object: only what decides the result is read.
- ReplayGuard.UnambiguousIff: compares requests with one verb and one body; a verb with newlines, which HTTP does not allow, could take lines of the path.
- The answers' names are lists of labels; `DnsText.Text` gives the text, with replacement characters, that the source returns.
- The limit of 4300 digits that recent Python versions put on `int(text)`.
- `hit_ratio`, `first_host`, `last_host`, printing and the demo `main` blocks.
