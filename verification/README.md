# Netping, modelled and proved

Netping measures networks: it pings targets over many protocols, keeps running statistics, and
serves them. This project models the parts of it whose logic can be separated from the sockets,
and proves what they are for. One module per component:

- `DnsName`, `DnsMessage` — the DNS query builder, the walker of compressed names and the response
  dissector (sections 3.1 and 4.1.1 to 4.1.4 of RFC 1035). The walker is a machine of iterations;
  its meaning is an inductive derivation of names, and the two are proved equal for every message.
- `Der`, `Kerberos`, `KrbError`, `EData`, `AsReqReads` — the DER writer and reader (section 8.1.3 of
  X.690), the AS-REQ builder, the KRB-ERROR dissector with its e-data scan (sections 5.4.1 and 5.9.1
  of RFC 4120), joined by round trips.
- `Checksum` — the Internet checksum (section 1 of RFC 1071) in 32-bit arithmetic.
- `Fleet` — the concurrent multi-target runner as a system of interleaved steps of its workers,
  with a semaphore, retries, cancellation and three stop conditions. A record of what the network
  answered runs along, which no step looks at.
- `Uptime`, `Statistics`, `Prober` — the single-target loop on the object it updates in place: up
  and down periods, running aggregates against recomputation over a ghost log of every probe.
- `Rtt` — the batch computations: jitter (section 6.4.1 of RFC 3550), percentiles, mean.
- `Backoff` — the retry delays, in 64 bits, with the random number as a parameter.
- `Broadcaster` — bounded history, paging and lossy subscriber channels. The objects refine a pure
  step function, over whose runs the properties are proved.
- `VerifyCache` — the key-verification cache and when callers cannot see it.
- `Bytes`, `Wrappers`, `Pinger` — octets, `Option`, and what a ping returns.

Go strings are sequences of octets where the code works on octets. Times and durations are
integers (nanoseconds, 0 is the zero `time.Time`), RTTs are reals. A ping is an arbitrary result.

What the code does not keep, each with the exact condition:

- `parseDNSName` has no jump limit. It returns if and only if it examines no offset twice; a
  pointer to itself loops (`StopsWithinLengthOrRevisits`, `SelfPointerLoops`). A response is
  dissected if and only if neither loop gets to such a name (`HangsWhen`, `QuestionLoops`), for
  which it suffices that all pointers lead back (`PointsBackReturns`). Calls that never return are
  results of their own (`Loops`, `Hangs`), and the methods require no more than that the call returns.
- `TotalUptime` and `LongestUp` are declared as the accumulated and the longest uptime, but only the
  up run at the end is booked (`UptimeIsTotalWhen`, `UptimeLost`, `LongestUpWhen`, `LongestUpLost`).
- Finalizing before the first probe books all time since the zero time as uptime (`NothingProbed`).
- With jitter a later retry can wait less than an earlier one, at the cap in particular
  (`NeverShorterWhen`, `ShorterAtCap`), and without a cap the delay leaves 64 bits
  (`BackoffBounds`, `DelayOverflows`).
- The e-data scan takes any 02 01 for the head of an INTEGER (`ReportIsRightWhen`,
  `LengthMistaken`, `BitStringMistaken`), and knows a type only by an INTEGER of one octet: 136 is
  listed but its INTEGER has two (`LoneIntegerReported`, `OtherReports`).
- A page limit above 500 is answered with pages of 50, so a client that steps by its own limit
  misses events once there are more than 50 (`PagesCover`).
- Keys that contain NUL can share a digest with another key and hash (`AnswerIsVerdictWhen`,
  `CanBeWrongWhen`, `WrongAnswer`); without NUL the cache is invisible (`InvisibleToNulFree`).

Where code and comment disagree the model follows the code: `SetMaxHistory` is documented to keep
at least 100 events but accepts any positive limit; label octets 64 to 191, which RFC 1035 reserves,
are read as lengths; the second half of the tag test in `dissectKRBError` never decides
(`TagClass`); `Reset` leaves the up/down clock fields alone;
the kdc-options are called forwardable, proxiable and renewable-ok, but the bits set are forwardable,
renewable, canonicalize and renewable-ok (`OptionsAre`).

## Model
| member | source | states |
|---|---|---|
| DnsName.SameOffsetSamePath | pkg/probers/dns_query.go:157-189 | two walks at the same offset visit the same offsets for ever after, whatever else they hold |
| DnsName.RevisitNeverStops | pkg/probers/dns_query.go:157-189 | once one offset is examined twice the loop never leaves |
| DnsName.StopsWithinLengthOrRevisits | pkg/probers/dns_query.go:147-192 | the loop halts iff it has left after len(msg) iterations, iff no offset is visited twice |
| DnsName.SelfPointerLoops | pkg/probers/dns_query.go:168-180 | the two octets c0 00 make the call run for ever |
| DnsName.PointsBackHalts | pkg/probers/dns_query.go:157-189 | if every pointer followed targets an offset below the start of its own label run, the walk halts |
| DnsName.ParseMeansDerivation | pkg/probers/dns_query.go:147-192 | the loop returns labels and next offset iff a derivation of section 4.1.4 at that offset has these labels and ends there; offset < next <= len(msg) |
| DnsName.EncodedNameParses | pkg/probers/dns_query.go:147-192 | every derivable name, compressed or not, is read completely and the walk stops |
| DnsName.LabelReads | pkg/probers/dns_query.go:181-188 | the octet n from 1 to 191 and n octets of text in front of a name are read as one more label |
| DnsName.PointerReads | pkg/probers/dns_query.go:168-180 | the octets c0 + t / 256 and t % 256 are read as the name at offset t < 4000 hex, with what follows them next; if no name is encoded there, or its walk never leaves, so it is with the pointer |
| DnsName.EndReads | pkg/probers/dns_query.go:159-167 | a zero octet is the name without labels, and beyond the end there is none |
| DnsName.OtherwiseMeans | pkg/probers/dns_query.go:147-192 | the call never returns iff no iteration leaves the loop, and errs iff one does although no name is encoded there |
| DnsName.ParseDNSName | pkg/probers/dns_query.go:147-192 | the loop itself: succeeds iff a name is encoded there, joins its labels by dots, returns the offset behind it |
| DnsMessage.BuildDNSQuery | pkg/probers/dns_query.go:111-144 | the octets written: header, kept labels with their lengths, root, type A, class IN |
| DnsMessage.QueryNameRoundTrip | pkg/probers/dns_query.go:111-192 | parsing a query at offset 12 gives exactly the labels of 1 to 63 octets and the offset 4 before the end; the domain itself comes back iff it is empty or no part was skipped |
| DnsMessage.DottedDomain | pkg/probers/dns_query.go:121-130 | a domain written as labels with dots between is split into these labels |
| DnsMessage.QueryFields | pkg/probers/dns_query.go:111-144 | the fixed octets of every query: id, RD alone, one question, no records, type A and class IN |
| DnsMessage.DissectDNSResponse | pkg/probers/dns_query.go:204-310 | every read is in bounds on every message on which no name that a loop gets to keeps it for ever; the reply, or too short |
| DnsMessage.ReadAnswerSection | pkg/probers/dns_query.go:257-300 | the record loop with its three ways out and its running least TTL |
| DnsMessage.SkipQuestionSection | pkg/probers/dns_query.go:244-255 | the question loop and where it leaves the offset |
| DnsMessage.WellFormedDissects | pkg/probers/dns_query.go:204-310 | on a message made of the announced questions and records, in any compression: each record rendered once, in order; the least positive TTL or 0; response code, flags and counts |
| DnsMessage.RecordAnswers | pkg/probers/dns_query.go:287-297 | what the type switch appends for a standing record: the address for type 1 with 4 octets and type 28 with 16, the name for type 5 if it is not empty, and else nothing |
| DnsMessage.RecordAtReads | pkg/probers/dns_query.go:261-300 | one iteration takes one standing record and moves strictly forward, within the message |
| DnsMessage.DissectMeaning | pkg/probers/dns_query.go:204-310 | on every such message the call returns a reply: its answers are those of the longest run of records that stands there, and its TTL is the least positive among theirs and that of a record whose data is cut off |
| DnsMessage.HangsWhen | pkg/probers/dns_query.go:244-300 | the call fails to return exactly when, behind the questions and records that stand, a loop gets to a question, an owner name or CNAME data whose walk never leaves |
| DnsMessage.PointsBackReturns | pkg/probers/dns_query.go:204-310 | a test on the octets: if, of every name that the two loops read, each pointer followed leads back before its own run of labels, the call returns |
| DnsMessage.QuestionLoops | pkg/probers/dns_query.go:244-255 | 14 octets, one question that points to itself: the call does not return |
| DnsMessage.LowestTtlIsLeast | pkg/probers/dns_query.go:279-281 | the running comparison computes the least positive TTL |
| DnsMessage.QueryDissects | pkg/probers/dns_query.go:111-310 | dissecting any query of the builder gives NOERROR, RD, one question, no answers |
| DnsMessage.FlagsRead | pkg/probers/dns_query.go:213-242 | of any flags word of section 4.1.1 of RFC 1035, put together from its fields: the response code, and each flag iff it is set |
| DnsMessage.SentResponse | pkg/probers/dns_query.go:204-310 | from the sender: header, questions and records written out octet by octet, names in any compression, come back as response code, flags, counts, answers in order, least positive TTL |
| Der.WrapASN1 | pkg/probers/kerberos.go:441-458 | identifier, length octets, content; DER below 65536 octets |
| Der.WrapIsDer | pkg/probers/kerberos.go:441-458 | the result is the DER encoding iff the content is shorter than 65536 octets; above, it is too short |
| Der.ReadASN1Length | pkg/probers/kerberos.go:460-480 | the length reader, in bounds on every octet string |
| Der.LengthReads | pkg/probers/kerberos.go:460-480 | a count octet below 80 hex is the length; 81 to 84 hex is followed by that many octets with the highest first; anything else, or too few octets, is length 0 |
| Der.ReadTlv | pkg/probers/kerberos.go:441-480 | reading behind an encoded element's tag finds its length and its content, ending where it ends |
| Der.DecodesForest | pkg/probers/kerberos.go:441-480 | decoding with the file's length reader inverts encoding of any forest of well-tagged trees, so nested lengths tile their parents |
| Kerberos.BuildKerberosASREQ | pkg/probers/kerberos.go:353-439 | the octets of the request; equal to the DER encoding of the AS-REQ tree iff realm <= 115 and principal <= 123 octets |
| Kerberos.AsReqIsDer | pkg/probers/kerberos.go:353-458 | the hand-written one-octet lengths are right exactly up to realm 115 and principal 123 octets |
| Kerberos.AsReqDecodes | pkg/probers/kerberos.go:353-480 | the reader recovers the whole tree: pvno 5, msg-type 10, options, names, realm, till, nonce, etypes 18, 17, 23 |
| Kerberos.LengthWraps | pkg/probers/kerberos.go:359-391 | a string of 256 octets or more is written with a length short by a multiple of 256 |
| AsReqReads.RequestReads | pkg/probers/kerberos.go:353-543 | the integer, string and time readers, put to the decoded values, give pvno 5, msg-type 10, principal, realm, krbtgt/realm, till, nonce 12345678, etypes 18, 17, 23 |
| AsReqReads.RequestShape | pkg/probers/kerberos.go:353-439 | the tags of the request from the outside in, those of every context field in the order of section 5.4.1 of RFC 4120 |
| AsReqReads.ValueTags | pkg/probers/kerberos.go:353-439 | the universal tag of every value in it |
| AsReqReads.OptionsAre | pkg/probers/kerberos.go:416-417 | of the 32 kdc-options bits 1, 8, 15 and 27 are set and no others |
| KrbError.ParseASN1Integer | pkg/probers/kerberos.go:482-502 | the integer reader, with its optional outer header and its 1 to 4 octet limit |
| KrbError.IntegerReads | pkg/probers/kerberos.go:482-502 | it returns v for the minimal DER INTEGER of any v below 2^31 |
| KrbError.IntegerReadsWhen | pkg/probers/kerberos.go:482-502 | for every DER INTEGER: its octets unsigned if at most four, else nothing; that is its value iff it is 0 to 2^31-1, and negative ones come back too large by a power of 256 |
| KrbError.StringReads | pkg/probers/kerberos.go:504-524 | a string under any of the five accepted tags comes back whole |
| KrbError.TimeReads | pkg/probers/kerberos.go:526-543 | the text of a GeneralizedTime reaches the time parser unchanged |
| KrbError.OthersRefused | pkg/probers/kerberos.go:482-543 | a value under any other universal tag is refused by each of the three readers |
| KrbError.OuterHeaderSkipped | pkg/probers/kerberos.go:482-543 | with an application or context header around it the value reads the same |
| KrbError.ParsePrincipalName | pkg/probers/kerberos.go:545-564 | the scanning loop joins by slashes the strings it takes |
| KrbError.SnameScansBack | pkg/probers/kerberos.go:378-393 | scanning the sname of a request gives krbtgt/realm for every realm of 1 to 115 octets: no length or tag octet is mistaken for a string |
| KrbError.ScanTakes | pkg/probers/kerberos.go:545-564 | a string under one of the three tags, its length in one octet, is taken whole |
| KrbError.ScanPasses | pkg/probers/kerberos.go:545-564 | any other octet is passed over, as is a tag whose length is 0 or runs past the end |
| KrbError.TagClass | pkg/probers/kerberos.go:300-303 | the tag test accepts exactly the octets 80 to bf |
| EData.ParseEDataPAData | pkg/probers/kerberos.go:566-617 | the scan with its two seen-sets: known types behind 02 01, each where it comes first |
| EData.ReportedWhen | pkg/probers/kerberos.go:566-617 | a type is reported iff it is known and 02 01 and its octet stand anywhere |
| EData.ReportedOfForest | pkg/probers/kerberos.go:566-617 | on the encoding of any elements, octet strings of elements among them: a known type is reported iff it is there as an INTEGER or 02 01 and its octet stand where no element begins |
| EData.ReportIsRightWhen | pkg/probers/kerberos.go:566-617 | the report is exactly of the INTEGERs that are there iff every such stray octet of a known type names one of them |
| EData.CollectOrder | pkg/probers/kerberos.go:578-611 | each type is listed at its first occurrence, behind just those that came before; with CollectMeaning, only once |
| EData.CollectMeaning | pkg/probers/kerberos.go:578-611 | exactly the wanted types that occur, none twice |
| EData.KnownTypes | pkg/probers/kerberos.go:566-617 | the encryption and pre-authentication types that can be reported |
| EData.IntegersReported | pkg/probers/kerberos.go:574-614 | of a list of DER INTEGERs below 128 the known ones are reported, each where it comes first |
| EData.LengthMistaken | pkg/probers/kerberos.go:574-617 | the length octets of any SEQUENCE of 513 octets are taken for an INTEGER: the tag of its first element is reported if it is a known type |
| EData.BitStringMistaken | pkg/probers/kerberos.go:574-617 | a well-formed instance: a SEQUENCE of a BIT STRING of 509 octets reports encryption type 3 without any INTEGER |
| EData.LoneIntegerReported | pkg/probers/kerberos.go:574-617 | for every INTEGER below 2^31 on its own: whether it is reported as itself, as another type, or not at all |
| EData.OtherReports | pkg/probers/kerberos.go:574-617 | the INTEGER 136 (PA-FX-FAST) is not reported, and 274 is reported as encryption type 18 |
| KrbError.DissectKRBError | pkg/probers/kerberos.go:282-351 | the field loop on any octet string: in bounds, always moving forward, applying each complete field |
| KrbError.MessageDissects | pkg/probers/kerberos.go:282-351 | on a message wrapped from any context fields in any order, exactly these fields are applied, in order |
| KrbError.HeadersOptional | pkg/probers/kerberos.go:282-295 | the fields are found as well without the application header, and without both headers |
| KrbError.WalkTurn | pkg/probers/kerberos.go:296-312 | one turn on any octets: a context field is applied under the last five bits of its tag; where the loop ends |
| KrbError.LastValueWins | pkg/probers/kerberos.go:313-347 | what each result field holds: the last usable value among the tags that set it; unknown tags change nothing |
| KrbError.RealmDecided | pkg/probers/kerberos.go:323-330 | with [7] before [9] the realm is that of [9] if not empty and else that of [7] |
| KrbError.KrbErrorRoundTrip | pkg/probers/kerberos.go:282-351 | error code, time, realm and text of any KRB-ERROR carrying them come back |
| KrbError.SnameRoundTrip | pkg/probers/kerberos.go:331-334 | the sname of the realm's krbtgt comes back as krbtgt/realm |
| KrbError.EDataRoundTrip | pkg/probers/kerberos.go:339-346 | the types reported are those the scan finds in the e-data |
| KrbError.WrappedMessage | pkg/probers/kerberos.go:441-458 | below 65536 octets such a message is what nested calls of wrapASN1 write |
| Checksum.ComputeChecksum | pkg/probers/icmp.go:126-138 | the two loops over an array, with the 32-bit sum wrapping; the folding loop ends |
| Checksum.InsertChecksum | pkg/probers/icmp.go:83-89 | only octets 2 and 3 are rewritten, with the high octet first |
| Checksum.SealedIs | pkg/probers/icmp.go:83-89 | sealing writes the checksum into octets 2 and 3 with the high octet first, and changes no other |
| Checksum.SealedVerifies | pkg/probers/icmp.go:83-89 | a packet of any length >= 4 with octets 2 and 3 zero sums to checksum 0 once sealed |
| Checksum.ComputesRfc1071 | pkg/probers/icmp.go:126-138 | up to 131074 octets the sum never wraps and the result is the complement of the one's complement sum |
| Checksum.WordsAre | pkg/probers/icmp.go:126-133 | two more octets add one word, high octet first, and an odd last octet is the high one |
| Checksum.Rfc1071Example | pkg/probers/icmp.go:126-138 | the numerical example of section 3 of RFC 1071 |
| Checksum.OnesSumIsFold | pkg/probers/icmp.go:134-136 | folding the sum at the end equals adding with end-around carry word by word |
| Checksum.WrapBreaksRfc1071 | pkg/probers/icmp.go:126-138 | for any length, the exact condition under which the wrapped sum still gives the RFC 1071 checksum |
| Checksum.LongPacketDiffers | pkg/probers/icmp.go:126-138 | 131076 octets of ff get a different checksum |
| Fleet.NextKeepsInv | pkg/probers/multi_prober.go:163-310 | every step of every worker keeps the invariant: semaphore count, counters, announcements, limits |
| Fleet.RunKeepsInv | pkg/probers/multi_prober.go:147-312 | so it holds in every state of every run |
| Fleet.AtMostConcurrency | pkg/probers/multi_prober.go:180-225 | in every interleaving at most Concurrency workers are between acquire and release |
| Fleet.NoDeadlock | pkg/probers/multi_prober.go:171-308 | as long as a worker is unfinished, some worker can move |
| Fleet.RunsEnd | pkg/probers/multi_prober.go:297-299 | with a probe count every run ends within a number of steps fixed by the options |
| Fleet.CancelledRunsEnd | pkg/probers/multi_prober.go:172-178 | after cancellation every run ends, probe count or not |
| Fleet.FinalAccount | pkg/probers/multi_prober.go:227-299 | every finished worker, whatever was cancelled, ends with successes + failures = ProbeCount, or on its first failure run of the limit's length, or cancelled with fewer; each logged outcome is true iff the last answer to that probe had no error and was no slower than a positive MaxLatency, as no answer before it was, and a bad last answer is the last permitted or the last before an interrupted sleep; OnProbeEvent fired once per recorded probe, in order, except the one that hit the limit |
| Fleet.StepHears | pkg/probers/multi_prober.go:184-221 | each answer of the network, and nothing else, joins the record of answers, in order |
| Fleet.AcquireWhen | pkg/probers/multi_prober.go:180-182 | in every run a worker at the semaphore can enter iff there is no limit or fewer than Concurrency workers hold a slot |
| Fleet.TallyIsCount | pkg/probers/multi_prober.go:227-236 | the counters are the numbers of successes and failures in the log |
| Fleet.TrailingMeaning | pkg/probers/multi_prober.go:289-291 | the streaks are the longest runs of one outcome at the foot of the log |
| Fleet.EventsAre | pkg/probers/multi_prober.go:293-295 | event k carries the number and the outcome of probe k |
| Fleet.FleetRefinesSolo | pkg/probers/multi_prober.go:163-310 | projected on one worker, a run of the fleet is a run of that worker alone without semaphore |
| Rtt.CalculateJitter | pkg/utils/utils.go:140-151 | the loop computes the estimator of RFC 3550 |
| Rtt.JitterIsWeighted | pkg/utils/utils.go:140-151 | jitter is the sum of the distances of neighbouring samples, each weighted by (15/16)^(distances behind it) / 16, a distance being what is not negative and squares to the squared difference |
| Rtt.JitterOfTwo | pkg/utils/utils.go:140-151 | of two samples, a sixteenth of what the greater exceeds the less by |
| Rtt.JitterMirrored | pkg/utils/utils.go:140-151 | c - x in place of every sample x leaves it the same: falling RTTs count as rising ones |
| Rtt.JittersConverge | pkg/utils/utils.go:146-149 | two estimators fed the same samples differ by (15/16)^(n-1) of what they differed by |
| Rtt.WindowJitter | pkg/stats/stats.go:243-250 | running and windowed jitter agree up to 5000 samples and then differ by exactly (15/16)^4999 times the jitter held at the window's first sample |
| Rtt.WindowJitterAgrees | pkg/stats/stats.go:243-250 | beyond 5000 samples they agree iff that jitter is 0 |
| Rtt.JitterBounds | pkg/utils/utils.go:140-151 | jitter lies between 0 and Max - Min |
| Rtt.WindowIs | pkg/stats/stats.go:247-250 | the window is the last 5000 samples, or all of fewer |
| Rtt.SumsAddUp | internal/printers/printer.go:164-167 | the sum is that of the parts, whatever the order of two |
| Rtt.MeanBounds | internal/printers/printer.go:164-174 | the mean lies between Min and Max |
| Rtt.PercentileMonotone | pkg/utils/utils.go:107-129 | percentiles grow with p and lie between the first and last sample |
| Rtt.BetweenNeighbours | pkg/utils/utils.go:119-128 | an interpolated percentile lies between its two neighbouring samples |
| Rtt.PercentileInterpolates | pkg/utils/utils.go:119-128 | of n > 1 ascending samples the percentile 100 (k + t) / (n - 1), with 0 <= t <= 1, is s[k] + t (s[k + 1] - s[k]) |
| Rtt.PercentileEnds | pkg/utils/utils.go:107-118 | from 0 down it is the first sample, from 100 up the last, and 0 of no samples |
| Rtt.PercentileOfProgression | pkg/utils/utils.go:107-129 | on a + b i, i < n, it is exactly a + b (n - 1) p / 100 |
| Rtt.CalculatePercentile | pkg/utils/utils.go:97-105 | the percentile of any ascending permutation of the samples; between least and greatest sample; 0 of none |
| Rtt.PercentileOfAnyOrder | pkg/utils/utils.go:97-105 | any permutation of the samples gives the same percentile |
| Rtt.CalculatePercentilesSorted | pkg/utils/utils.go:131-138 | one result per percentile asked for, in order |
| Rtt.CalcMinAvgMaxRttTime | internal/printers/printer.go:155-183 | least, greatest, mean and jitter of the samples; P95 and P99 are their 95th and 99th percentiles, and Min <= P95 <= P99 <= Max |
| Uptime.RunsFillTime | pkg/probers/probers.go:192-256 | maximal up and down runs together fill the time from the first probe to the end |
| Uptime.SetLongestKeeps | pkg/utils/utils.go:84-95 | SetLongestDuration keeps the latest of the longest periods |
| Uptime.AdvanceKeeps | pkg/probers/probers.go:192-256 | each probe keeps what the clock fields mean: run starts, closed downtime, longest downtime |
| Uptime.Account | pkg/probers/probers.go:278-295 | after finalizing: TotalDowntime is the length of all maximal failure runs, LongestDown the latest longest, TotalUptime and LongestUp are those of the up run at the foot of the log, and what the totals miss of the elapsed time is exactly the closed up runs |
| Uptime.DownTimeIsLast | pkg/probers/probers.go:241-289 | DownTime is the length of the last failure run |
| Uptime.TrailingMeaning | pkg/probers/probers.go:192-256 | the streaks are the longest runs of one outcome at the foot of the log |
| Uptime.SubSaturates | pkg/probers/probers.go:279-291 | differences of times, cut off at 64 bits |
| Uptime.UptimeIsTotalWhen | pkg/probers/probers.go:290-294 | TotalUptime is the whole uptime iff no up run of positive length was ever ended by a failure |
| Uptime.UptimeLost | pkg/probers/probers.go:290-294 | a run in which 10 of 11 up nanoseconds are lost |
| Uptime.NothingProbed | pkg/probers/probers.go:290-294 | finalizing before the first probe books the time since the zero time as uptime |
| Uptime.LongestUpWhen | pkg/probers/probers.go:290-294 | LongestUp is the latest longest up run iff no up run ended by a failure was longer than the last one |
| Uptime.LongestUpLost | pkg/probers/probers.go:290-294 | a 10 ns up run before a failure is reported as no uptime at all |
| Statistics.Statistics.RecordSuccess | pkg/stats/stats.go:213-251 | counters, streaks, window and O(1) aggregates equal recomputation over the log with the success appended |
| Statistics.Statistics.AddSample | pkg/stats/stats.go:225-250 | the aggregates' half of it: min, max, sum, count, jitter, window of 5000 |
| Statistics.Statistics.RecordFailure | pkg/stats/stats.go:253-264 | the same for a failure, which leaves the RTT aggregates alone |
| Statistics.Statistics.TakeSnapshot | pkg/stats/stats.go:266-307 | loss is the percentage of failures, in 0..100; with a success Min <= Avg <= Max and jitter <= Max - Min |
| Statistics.Statistics.Reset | pkg/stats/stats.go:309-327 | everything agrees with an empty log |
| Statistics.Statistics.Recompute | internal/printers/printer.go:155-183 | batch figures over the window equal the running ones up to 5000 samples; beyond, jitter differs by the exact amount and the extremes are inside |
| Prober.RetryMeaning | pkg/probers/probers.go:149-190 | the retry loop reports the first ping that does not fail, or the last one permitted or slept for |
| Prober.OutcomeMeaning | pkg/probers/probers.go:149-261 | what is recorded and reported of a tick in terms of its pings: which one decides, a success iff that had no error and was no slower than a positive MaxLatency, and with its RTT |
| Prober.GoesOnMeans | pkg/probers/probers.go:223-273 | the loop goes on iff fewer ticks than ProbesBeforeQuit were handled and the last MaxConsecutiveFails probes did not all fail, where these are limited |
| Prober.Prober.PingWithRetries | pkg/probers/probers.go:149-190 | the loop computes that |
| Prober.Prober.HandleTick | pkg/probers/probers.go:138-261 | one tick appends its outcome to the log and advances the clock fields |
| Prober.Prober.FinalizeStatistics | pkg/probers/probers.go:278-295 | EndTime, UpTime and the open run are booked; counters stay |
| Prober.Prober.Probe | pkg/probers/probers.go:123-276 | the loop returns on the first event that cancels or reaches a limit, records each tick once, reports the settled ping of every tick but the one that reached the failure limit, takes EndTime from the event that ended it, and leaves the account above |
| Prober.FinalAccount | pkg/probers/probers.go:123-295 | the account of Uptime.Account holds of what Probe leaves on new statistics |
| Backoff.CappedGrows | pkg/utils/backoff.go:41-44 | later attempts wait no shorter before jitter, and once capped stay capped |
| Backoff.CappedIs | pkg/utils/backoff.go:29-44 | the delays start at the initial delay or 50 ms, grow by the multiplier or 2, and are cut off at the cap; negative attempts count as the first |
| Backoff.JitterEnds | pkg/utils/backoff.go:46-54 | jitter leaves from a half to 0.99995 of the delay, both of them drawn |
| Backoff.BackoffBounds | pkg/utils/backoff.go:28-57 | a delay is returned whatever is drawn iff the longest fits 64 bits, always with a cap; it is at least half the unjittered delay, never above it or the cap |
| Backoff.DelayOverflows | pkg/utils/backoff.go:41-56 | without a cap 50 ms doubled 40 times is out of range of a Duration |
| Backoff.NeverShorterWhen | pkg/utils/backoff.go:41-56 | for every attempt and configuration: whatever is drawn the next wait is no shorter iff it fits 64 bits and, with jitter, 0.99995 of this delay and half of the next do not overlap |
| Backoff.NoShorterWait | pkg/utils/backoff.go:46-54 | wherever the delay at least doubles, or there is no jitter, no draw makes the next wait shorter |
| Backoff.CappedDoublesWhen | pkg/utils/backoff.go:41-44 | with a multiplier of 2 or more the delay doubles as long as the cap is not below twice the delay |
| Backoff.ShorterAtCap | pkg/utils/backoff.go:42-54 | at the cap with jitter the next wait can be shorter, iff the cap is more than 2 ns |
| Backoff.ShorterByDefault | pkg/utils/backoff.go:18-57 | the default configuration can wait 1.9999 s and then 1 s |
| Broadcaster.HistoryIsSuffix | pkg/web/broadcaster.go:58-195 | over every run the history is a suffix of the events since the last clear, within the current limit and no shorter than the lowest limit in force demands |
| Broadcaster.HistoryLength | pkg/web/broadcaster.go:58-195 | its exact length: the least of the number of events since the clear and, for every moment since, the limit then in force plus the events sent since |
| Broadcaster.LimitIs | pkg/web/broadcaster.go:58-82 | the limit in force: a million at first and for what is not positive, at most five million, and else the limit last set |
| Broadcaster.HistoryIsLast | pkg/web/broadcaster.go:172-179 | while the limit is not lowered it is exactly the last `limit` events |
| Broadcaster.HistoryIsTail | pkg/web/broadcaster.go:172-179 | so it is the newest of the events since the last clear, with none left out in between |
| Broadcaster.Delivery | pkg/web/broadcaster.go:181-187 | what a subscriber took and still holds are the events sent while it was subscribed, in order, less those that met its own 32 slots full |
| Broadcaster.NothingMissing | pkg/web/broadcaster.go:181-187 | nothing is missing iff its buffer was never full at a send |
| Broadcaster.SilentAfterUnsubscribe | pkg/web/broadcaster.go:101-110 | after its unsubscription a subscriber is offered nothing more, whatever follows |
| Broadcaster.NoInterference | pkg/web/broadcaster.go:91-188 | striking out all other subscribers' operations changes nothing of what one receives |
| Broadcaster.MatchingSplits | pkg/web/broadcaster.go:137-152 | matches come out newest first |
| Broadcaster.MatchingMeans | pkg/web/broadcaster.go:137-152 | an event is found iff it is stored, is of the target asked for by name, address or host, and has the outcome asked for |
| Broadcaster.MatchingCounts | pkg/web/broadcaster.go:137-152 | each matching event as often as it is stored, and no other |
| Broadcaster.PagesCover | pkg/web/broadcaster.go:122-155 | pages at offsets 0, L, 2L, ... concatenate to the matches iff L <= 500 or there are at most 50 |
| Broadcaster.PageShifts | pkg/web/broadcaster.go:122-155 | one more matching event shifts every page by one |
| Broadcaster.Broadcaster.GetProbes | pkg/web/broadcaster.go:122-155 | the page asked for, and a total that depends on neither limit nor offset |
| Broadcaster.Broadcaster.Subscribe | pkg/web/broadcaster.go:91-99 | a new empty channel; nothing else changes |
| Broadcaster.Broadcaster.Unsubscribe | pkg/web/broadcaster.go:101-110 | the channel is closed and what it holds stays readable; a channel that is not subscribed is left alone |
| Broadcaster.Broadcaster.SetMaxHistory | pkg/web/broadcaster.go:58-72 | the clamped limit, and the history cut to its last events |
| Broadcaster.Broadcaster.GetMaxHistory | pkg/web/broadcaster.go:74-82 | the limit in force |
| Broadcaster.Broadcaster.Broadcast | pkg/web/broadcaster.go:157-188 | normalizes, stores within the limit, offers once to each open channel in any order |
| Broadcaster.Broadcaster.NormalizedKeeps | pkg/web/broadcaster.go:162-170 | which parts of an event normalizing keeps, which it fills in or sanitizes, and that doing it twice changes nothing more |
| Broadcaster.Broadcaster.ClearHistory | pkg/web/broadcaster.go:190-195 | empties the history and nothing else |
| VerifyCache.Verifier.VerifyKey | pkg/auth/verifier.go:39-114 | the answer and the cache it leaves, on every path; on an empty cache the answer is the uncached one |
| VerifyCache.Verifier.Check | pkg/auth/verifier.go:61-101 | the uncached computation with its early exits |
| VerifyCache.VerdictOfParts | pkg/auth/verifier.go:61-101 | from the side of the enrolment: of any parts joined by dollar signs the key is accepted iff it is not empty, there are six parts, they name argon2id, version 19 and a cost, and the last decodes to 1 to 1024 octets that are IDKey of the key with the salt of the fifth, at that cost and length |
| VerifyCache.EveryHashHasParts | pkg/auth/verifier.go:61-64 | every hash text is such a join |
| VerifyCache.InsertMeans | pkg/auth/verifier.go:103-111 | storing drops other entries only from 10000 on, and then just those past their 30 seconds |
| VerifyCache.Verifier.PruneExpired | pkg/auth/verifier.go:116-122 | exactly the entries past their time are deleted |
| VerifyCache.MaterialMeaning | pkg/auth/verifier.go:46-47 | two questions digest the same text iff they are equal or text moved across the separating NUL |
| VerifyCache.EntriesAreVerdicts | pkg/auth/verifier.go:103-111 | in every interleaving of calls and clears, every entry is the verdict on a question that was asked |
| VerifyCache.CallIsStep | pkg/auth/verifier.go:46-114 | a call leaves the cache as it is if it hits, and otherwise does one step of such a run and returns the uncached answer |
| VerifyCache.CallsAreSteps | pkg/auth/verifier.go:39-114 | calls one after the other are such a run |
| VerifyCache.Invisible | pkg/auth/verifier.go:39-114 | the answer is the uncached one, if no other question asked shares its text |
| VerifyCache.InvisibleToNulFree | pkg/auth/verifier.go:39-114 | so it is for keys without NUL, and for hashes without NUL |
| VerifyCache.GoverningEntry | pkg/auth/verifier.go:103-122 | which stored question, if any, a lookup finds after any steps: the last with the same text, unless cleared or pruned since |
| VerifyCache.AnswerIsVerdictWhen | pkg/auth/verifier.go:39-114 | after any steps in any interleaving: the answer is the uncached one iff nothing is looked up or found, the entry has expired, or the two verdicts agree |
| VerifyCache.CanBeWrongWhen | pkg/auth/verifier.go:46-111 | some history and password hash make the answer to a question wrong iff its text splits at another NUL into a non-empty key and a well-formed hash |
| VerifyCache.SecondAnswer | pkg/auth/verifier.go:46-56 | the same for a second question behind a first, in terms of the two questions |
| VerifyCache.MovedTextAnswers | pkg/auth/verifier.go:46-64 | a family of keys with NUL whose verdict is returned for a shorter key |
| VerifyCache.WrongAnswer | pkg/auth/verifier.go:46-64 | an instance: key "A" is accepted on the strength of an earlier "A" with a NUL behind it |
| VerifyCache.CacheBounded | pkg/auth/verifier.go:103-111 | more than 10000 entries only if none of them had expired at the last write |

## Left out
- Sockets, TLS, HTTP, deadlines and the bodies of the pings: a ping is any result.
- The other probers, the printers and exporters, the web server, the terminal interface, flag parsing and target expansion.
- Kerberos.BuildKerberosASREQ: the till text is a parameter; its equality with the DER tree is stated for 15 octets, which is what the layout gives for the years 1 to 9999.
- `GetHistory` and `GetHistoryCount`, which copy and count a field.
- Name tables and text formatting (`krbErrorCodeName`, `krbETypeName`, badges, `IP.String`): an encryption type is its number, an address the octets it prints.
- `time.Now`, `time.Parse`, `time.Format`, `SanitizeSingleLine`, SHA-256, Argon2, base64 and `Sscanf` are parameters; SHA-256 is taken to be free of collisions where a lemma says so.
- Floating-point rounding: RTTs and delays are reals.
- Mutexes: each method of `Statistics`, `Broadcaster` is atomic. `VerifyKey` takes its lock twice, and its runs interleave there.
- Scheduling fairness: `Fleet.RunsEnd` bounds the steps, not the time; a ping or sleep that never returns is outside it.
- The stop signal of the fleet runner, which nothing closes; it would act as cancellation does.
- Fields of `Statistics` that are only copied (host, addresses, diagnostics, reason texts), hostname re-resolution, and what the printers and callbacks do with an event.
- The other measurements an event of the broadcaster carries: they are stored and sent as they are.
- `pkg/engine/dynamic.go` and the target registry: they repeat the loop of the prober.
- Prober.Prober.Probe: takes the events its select will deliver as a sequence; when several are ready, the sequence says which was taken.
- VerifyCache.Verifier.Check: IDKey is total; the original panics on a time or thread cost of 0, which is not part of this model.
