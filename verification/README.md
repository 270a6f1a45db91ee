# Verified model of the WhatsApp adapter

A Dafny 4.11 model of the logic of a WhatsApp adapter written in Go, with proofs about it. The
adapter turns audio files into voice notes, sends and reads contact cards, resolves phone numbers
and LID addresses through caches, and keeps one client per session with a presence refresher.

`dafny verify dfyconfig.toml` checks everything.

## What is modelled

Loops of the source are methods with loops, proved equal to a closed form; the promises are lemmas
about the closed form.

- **Voice notes** (`Arithmetic`, `Pcm`, `Resample`, `Framing`, `Waveform`, `AudioPipeline`): decoding
  little-endian PCM, downmixing, linear resampling, zero padding, Opus frames with RTP counters
  (section 5.1 of RFC 3550), duration and 64-bar waveform, and the whole conversion with its error
  cases. `float64` is modelled by exact reals, `math.Round` rounds half away from zero, and integer
  division and conversion truncate toward zero. The MP3 decoder is an input; the Opus encoder and
  the Ogg writer only say which of their calls fail.
- **Contact cards** (`Text`, `PhoneNumbers`, `VCard`, `Contacts`, `Forwarding`): the vCard 3.0 printer
  of `Send`, the line parser (RFC 2426 sections 3.1.1, 3.1.2 and 3.3.1), and the Brazilian
  ninth-digit rule in its two implementations. Text is ASCII; an absent `wa_id` is the empty string.
- **Destinations** (`Jid`, `Resolver`, `Destination`): the two phone lookups over their shared 24-hour
  cache, and the choice of a destination in `Send`. The WhatsApp server is an oracle that answers a
  candidate at a time; the phone-number library is a function argument.
- **Call replies** (`CallReply`, `Calls`): the 30-minute LID cache shared by all sessions, the retry loop
  over a session's store (an oracle as well), the reply to a rejected call and the display name of an
  address. The steps of a run are the sections of the cache under its lock, so calls may overlap; a
  method gets what other handlers store, load or run between its own sections as an argument.
- **Sessions** (`Overrides`, `Presence`, `Sessions`): the client manager as an object, proved against a
  state machine whose steps are the sections of the source under its mutex. A run is any sequence of
  steps, so the theorems hold for every interleaving. Refresher goroutines are numbered tokens.

## Where the code and its promises part

Each is stated as an if-and-only-if.

- Contacts do not come back unchanged: the number of most Brazilian mobiles alternates between its
  two spellings from hop to hop (`Forwarding.OneHopRestores`, `Forwarding.TwoHopsRestore`; for example
  `Forwarding.OneHopDropsTheNine`), and a name survives only under the condition of
  `Contacts.NameSurvives` (not so in `Contacts.SemicolonSwapsName`).
- The resolver's candidates contain the number that the local rule would send to, with one exact
  family of exceptions (`PhoneNumbers.ImplementationsAgree`; one of them in
  `PhoneNumbers.ToggledNumberIsNoCandidate`).
- A comment in `checkUserExistsOnWhatsApp` says that an error is returned when all candidates failed;
  the code returns one when any candidate failed and none was found (`Resolver.VerdictsAreJustified`,
  `Resolver.OneFailureIsAnError`).
- A comment in `handleCallRejection` says that the device suffix of the caller is stripped; the code
  strips one that stands in the user text, but not a device number (`CallReply.DeviceSuffixKept`,
  `CallReply.CompanionIsAddressedOnItsDevice`).
- An event that comes late, from a client that was replaced meanwhile, starts a refresher for the old
  client (`Presence.HeldServesRegistered`, `Presence.LateEventServesOldClient`) or cancels that of the
  new one (`Presence.LostToOtherExactly`, `Presence.LateEventStopsNewClient`).
- `Disconnect` forgets the cancel function of a running refresher, which then runs for ever
  (`Presence.DisconnectCleansUp`, `Presence.ReloadWhileOnlineLeaks`).
- A loaded configuration can start a refresher whose ticker interval is not positive
  (`Overrides.StartsWithoutIntervalExactly`).
- The downmix halves each channel before adding, so equal channels keep their value only if it is
  even (`Pcm.EqualChannels`).
- The comment on `buildWaveform` speaks of 32 bars from 0 to 31; the code makes 64 from 0 to 100. The
  comment on `candidatesBR` speaks of three candidates; there are at most two.

## Model

| member | source | states |
|---|---|---|
| Arithmetic.TruncDivBounds | internal/provider/send.go:899 | integer division drops the fraction: smaller magnitude, same sign, off by less than one |
| Arithmetic.RoundDivNearest | internal/provider/send.go:919 | `math.Round` of a non-negative fraction is the nearest integer, halves up |
| Arithmetic.RoundOfQuotient | internal/provider/send.go:759 | rounding a real quotient is rounding the integer fraction |
| Pcm.BytesToInt16 | internal/provider/send.go:880-890 | sample k is bytes 2k and 2k+1 in two's complement; an odd last byte is dropped |
| Pcm.DecodeInvertsEncode | internal/provider/send.go:880-890 | every sample sequence is what its little-endian bytes decode to |
| Pcm.EncodeInvertsDecode | internal/provider/send.go:880-890 | the bytes can be recovered from the samples, up to an odd last byte |
| Pcm.SampleIsLittleEndian | internal/provider/send.go:880-890 | a sample is its low byte and 256 times its high byte modulo 2^16, negative iff the top bit is set |
| Pcm.DownmixFrame | internal/provider/send.go:899-906 | the mono sample is the sum of the truncated halves; both int16 clamps are unreachable |
| Pcm.DownmixStereoToMono | internal/provider/send.go:893-909 | one mono sample per pair; inputs shorter than two samples are returned as they are |
| Pcm.DownmixFrames | internal/provider/send.go:893-909 | mono sample k is the sum of the truncated halves of samples 2k and 2k+1; an odd last sample is dropped |
| Pcm.EqualChannels | internal/provider/send.go:899 | two equal channels keep their value exactly when it is even, otherwise it moves one toward zero |
| Pcm.DownmixLaws | internal/provider/send.go:899 | symmetric in the channels, monotone, within one of the truncated average |
| Pcm.PadZeros | internal/provider/send.go:955-962 | the input is a prefix of the result, whose length is the larger of the two and whose added samples are zero |
| Resample.OutputSample | internal/provider/send.go:925-937 | the real-number interpolation with its clamps yields the integer closed form: no clamp ever acts |
| Resample.ResampleLinearInt16 | internal/provider/send.go:912-940 | the loop computes the closed form, with the shortcut for equal or invalid rates |
| Resample.NothingToResample | internal/provider/send.go:913-917 | equal or invalid rates leave the samples as they are |
| Resample.OutLenNearest | internal/provider/send.go:918-922 | the output length is within half a sample of n*dst/src, or is forced to 1 |
| Resample.BaseIndexInRange | internal/provider/send.go:925-926 | every base index lies inside the input, so only the right neighbour can hit the edge |
| Resample.StaysBetweenNeighbours | internal/provider/send.go:924-953 | every output lies between the two input samples around it, or repeats the last one |
| Resample.PreservesOrder | internal/provider/send.go:912-953 | nondecreasing input gives nondecreasing output for every pair of rates |
| Resample.PreservesDominance | internal/provider/send.go:912-953 | an input that is nowhere smaller gives an output that is nowhere smaller |
| Resample.PreservesPolarity | internal/provider/send.go:930-937 | inverting the input inverts the output, because truncation is toward zero |
| Resample.ReproducesRamps | internal/provider/send.go:924-937 | a linear signal is reproduced exactly at the new positions, truncated |
| Resample.EqualRatesNeedNoShortcut | internal/provider/send.go:913-917 | the early return for equal rates agrees with the general formula |
| Resample.UpsamplingIsInvertible | internal/provider/send.go:912-940 | raising the rate by a whole factor and lowering it again is the identity |
| Framing.EncodeFrames | internal/provider/send.go:777-811 | the packets of the closed form (sequence k mod 2^16, timestamp 320(k+1) mod 2^32) unless a foreign call fails; the first failure is the one reported |
| Framing.FramingLosesNothing | internal/provider/send.go:779-787 | the frames joined are the input and fewer than 320 zeros, in ceil(n/320) frames of exactly 320 samples |
| Framing.CountersRepeat | internal/provider/send.go:777-807 | two packets share a sequence number iff 2^16 divides their distance, and a timestamp iff 2^26 does |
| Framing.CountersRun | internal/provider/send.go:777-807 | the first packet has sequence 0 and timestamp 320; neighbours differ by 1 and by 320, modulo 2^16 and 2^32 |
| Framing.FailureReported | internal/provider/send.go:788-811 | the error is that of the first packet with one, encoding before writing, closing last |
| Waveform.BlockFits | internal/provider/send.go:831-841 | a block that starts inside the input ends inside it and inside the covered part |
| Waveform.BlockAverage | internal/provider/send.go:832-855 | each block average is its magnitude sum over the common block size |
| Waveform.NormaliseBar | internal/provider/send.go:866-873 | normalising averages is rounding 100*S/S_max on sums; both clamps are unreachable |
| Waveform.BuildWaveform | internal/provider/send.go:819-877 | the average-then-normalise loops compute the closed form on block sums |
| Waveform.BarCount | internal/provider/send.go:820-823 | 64 bars, or none for an empty recording |
| Waveform.LoudnessAdds | internal/provider/send.go:843-851 | a block sum is the sum of the magnitudes of its samples |
| Waveform.LoneSoundShows | internal/provider/send.go:824-842 | a single sound at sample p shows as 100 in bar p/b and nowhere else, b being n/64, or 1 below 64 samples |
| Waveform.WaveformShape | internal/provider/send.go:819-877 | 64 bars in 0..100 ordered as the sums are; a bar of 100 exists iff some covered sample is nonzero, otherwise all are 0 |
| Waveform.BarIsNearestPercentage | internal/provider/send.go:866-873 | each bar is the nearest percentage of the loudest block |
| Waveform.TailIsIgnored | internal/provider/send.go:824-841 | for n >= 64 only the first 64*(n/64) samples matter |
| Waveform.VolumeInvariance | internal/provider/send.go:828-874 | multiplying all samples by a nonzero integer leaves the waveform unchanged |
| Waveform.PlayedBackwards | internal/provider/send.go:828-874 | a recording that fills its blocks, reversed, has its waveform reversed |
| AudioPipeline.ConvertMP3ToOGG | internal/provider/send.go:718-816 | the outcome for every input: each error in its order, the Ogg writer or the encoder that cannot be constructed, the first foreign failure, or the packets, seconds and waveform of the samples that the next two rows determine; "no pcm samples" never happens |
| AudioPipeline.TargetLength | internal/provider/send.go:741-757 | n mono samples (a quarter of the bytes, or half of them) give the nearest whole number of samples to n*16000/rate, or 320 if that is more |
| AudioPipeline.TargetSamples | internal/provider/send.go:741-757 | sample k lies between the two mono samples around k*rate/16000, is that mono sample at 16 kHz, and is silent behind the end; mono is the sum of the truncated halves iff 4 divides the number of bytes |
| AudioPipeline.SecondsExactly | internal/provider/send.go:759-762 | the announced duration is the nearest number of seconds, halves up, modulo 2^32, and 1 instead of 0 |
| AudioPipeline.DurationMatchesPackets | internal/provider/send.go:759-808 | for every input the announced seconds, up to multiples of 2^32, and the number of 20 ms packets agree up to rounding; within half a second if there are more than 25 packets and no wrap |
| AudioPipeline.SilenceStaysSilent | internal/provider/send.go:746-763 | zero bytes give silent packets and an all-zero waveform for every rate |
| Text.TrimSplits | internal/provider/events.go:943 | trimming removes whitespace at both ends, all of it, and nothing else |
| Text.WhitespaceIsAscii | internal/provider/events.go:943 | the whitespace characters: tab to carriage return, and space |
| Text.CaseTables | internal/provider/events.go:976 | the case tables letter by letter; other characters have no case |
| Text.TelInAnyCase | internal/provider/events.go:976-981 | `tel` is read like TEL in every mixture of cases |
| Text.JoinOfSplit | internal/provider/events.go:941 | joining the parts of a split gives the text back |
| Text.SplitAppend | internal/provider/events.go:941 | a separator cuts a text into the parts before and the parts after it |
| PhoneNumbers.DigitsOnly | internal/provider/send.go:1062-1070 | the loop keeps exactly the digits, in order |
| PhoneNumbers.TenDigits | internal/provider/send.go:1064-1068 | the digits are 0 to 9 |
| PhoneNumbers.DigitsAppend | internal/provider/send.go:1062-1070 | the digits of a joined text are the joined digits |
| PhoneNumbers.ThriceIsOnce | internal/provider/send.go:1108-1127 | f(f(f(x))) = f(x) for every string |
| PhoneNumbers.NinthDigitTwice | internal/provider/send.go:1118-1125 | f(f(x)) = x iff x is not a nine-digit mobile whose last eight digits begin outside 6..9 |
| PhoneNumbers.NinthDigitFixed | internal/provider/send.go:1108-1127 | f(x) = x iff x is neither spelling of a mobile |
| PhoneNumbers.DroppingIsNormalForm | internal/provider/send.go:1108-1127 | without insertion the map is idempotent and f never leaves the class of numbers that share its value |
| PhoneNumbers.GuardsAreRedundant | internal/provider/events.go:1007-1012 | the parser's guards for 55 and the length guard of the sender change nothing |
| PhoneNumbers.JIDDigitsOfFormattedNumber | internal/provider/send.go:1094-1106 | only the digits before the first `@` or `:` count, however the number is punctuated |
| PhoneNumbers.ComputeCandidatesBR | internal/provider/resolver.go:116-143 | the loop with its set of seen spellings yields the number and at most one other spelling |
| PhoneNumbers.CandidatesShape | internal/provider/resolver.go:134-142 | the list starts with its input, has no duplicate and at most two entries |
| PhoneNumbers.SecondCandidate | internal/provider/resolver.go:116-143 | for +55, an area code and a local part: a nine is put before it iff it has at least eight characters and no leading nine, and dropped iff it has more than eight and one |
| PhoneNumbers.NoSecondCandidate | internal/provider/resolver.go:117-123 | other countries and short numbers are tried as they are |
| PhoneNumbers.CandidatesMutual | internal/provider/resolver.go:126-133 | being a candidate is mutual iff dropping the nine does not leave another leading nine |
| PhoneNumbers.ImplementationsAgree | internal/provider/resolver.go:116-143 | the toggled number is a candidate iff it is not 55, area, and eight digits that begin with 9 |
| PhoneNumbers.ToggledNumberIsNoCandidate | internal/provider/resolver.go:116-143 | a concrete exception: the sender makes 5511991234567 of 551191234567, which the resolver does not try |
| VCard.ParseVCard | internal/provider/events.go:934-1034 | the loop over lines returns the name and phones of the line-by-line reading |
| VCard.ReadName | internal/provider/events.go:947-967 | the N branch computes `FormatName`, whose meaning is VCard.FormatNameSwaps and VCard.FormatNameKeeps |
| VCard.ReadTel | internal/provider/events.go:981-1025 | the TEL branch computes `KeepPhone` of the line's value and id, whose meaning is VCard.TelLineMeaning, VCard.WaIdParameter and VCard.KeepPhoneCases |
| VCard.BlankText | internal/provider/events.go:935-937 | the early return for blank text agrees with the loop |
| VCard.ParserIsCompositional | internal/provider/events.go:941-1033 | phones of two joined texts are those of the first then of the second; the name is the last nonblank FN, else the last N |
| VCard.LaterNameWins | internal/provider/events.go:970-973 | the last FN line decides the full name |
| VCard.LaterNWins | internal/provider/events.go:947-967 | the last N line decides the N name |
| VCard.FNLineText | internal/provider/events.go:970-973 | `FN:` in any case and a text is read as that text trimmed |
| VCard.NLineText | internal/provider/events.go:947-949 | `N:` in any case and a text is read as the display form of that text trimmed |
| VCard.TextNamedByFN | internal/provider/events.go:970-1033 | a text whose last FN line says something has that name, whatever its N lines say |
| VCard.TextNamedByN | internal/provider/events.go:1028-1033 | a text whose last FN line is blank, or that has none, has the name of its last N line |
| VCard.FNMaria | internal/provider/events.go:970-973 | the text `FN:Maria` has the name Maria |
| VCard.OtherLineIgnored | internal/provider/events.go:976-981 | a line with any other property is neither a name nor a phone |
| VCard.TelLineMeaning | internal/provider/events.go:974-990 | every line whose property mentions TEL, group prefix or not, in any case, is a phone: what follows its last colon, and its `waid=` parameter |
| VCard.TelLineWithoutColon | internal/provider/events.go:976-1003 | a TEL line without a colon is a phone by its `waid=` parameter alone |
| VCard.WaIdParameter | internal/provider/events.go:992-1003 | the id follows the first `waid=`, in any case, and runs to the next semicolon or colon, or to the end of the line |
| VCard.NoWaIdParameter | internal/provider/events.go:993-1003 | without the parameter there is no id |
| VCard.KeepPhoneCases | internal/provider/events.go:1004-1025 | a phone is its toggled digits, else those of its id; it is skipped iff neither has a digit |
| VCard.FormatNameKeeps | internal/provider/events.go:948-967 | an N value is shown unchanged iff it has no semicolon or two blank first components |
| VCard.FormatNameSwaps | internal/provider/events.go:951-960 | `Family;Given` is shown as `Given Family` |
| VCard.FormatNameByParts | internal/provider/events.go:950-967 | given name before family name; only one of them if the other is blank |
| Contacts.BuildTelLines | internal/provider/send.go:659-671 | one TEL line per nonblank phone, in order |
| Contacts.BuildContacts | internal/provider/send.go:643-692 | the cards of all contacts with a phone, the first contact's name, and the two error cases |
| Contacts.PrintedCard | internal/provider/send.go:675-683 | the text of a card, and the display name: the trimmed name, or Contact |
| Contacts.PrintedPhone | internal/provider/send.go:660-671 | a TEL line with its type parameters, the id if there is one and the number; none for a blank number |
| Contacts.TelLineReadsBack | internal/provider/send.go:666-670 | parsing a printed TEL line yields exactly what its phone carries |
| Contacts.RoundTrip | internal/provider/send.go:650-683 | print then parse returns the display name and, in order, the toggled digits of every kept phone and id |
| Contacts.MessageRoundTrip | internal/provider/send.go:647-692 | all cards of a message are read back in order, none added or lost |
| Contacts.ParsedNameOnOneLine | internal/provider/events.go:1029-1033 | no parsed name contains a line break |
| Contacts.NameSurvives | internal/provider/send.go:651-677 | the name comes back iff it has no line break and no semicolon, or blank first components |
| Contacts.NameComesBackSwapped | internal/provider/events.go:948-961 | a contact named `Family;Given` comes back as `Given Family` |
| Contacts.SemicolonSwapsName | internal/provider/events.go:948-961 | the shortest such name: `a;b` comes back as `b a` |
| Forwarding.OneHop | internal/provider/send.go:650-683 | one hop carries the phones and leaves a contact that can be sent again safely |
| Forwarding.DigitlessContactStops | internal/provider/send.go:672-674 | a contact left without digits is not sent again |
| Forwarding.ForwardingHasPeriodTwo | internal/provider/events.go:1004-1025 | three hops show the same phones as one |
| Forwarding.TwoHopsRestore | internal/provider/events.go:1004-1025 | two hops restore the phones of any clean contact iff they are digits and each string is fixed by the ninth-digit map applied twice |
| Forwarding.OneHopRestores | internal/provider/events.go:1004-1025 | one hop leaves the phones of any clean contact unchanged iff they are digits and none is a mobile number |
| Forwarding.OneHopDropsTheNine | internal/provider/events.go:1004-1025 | a concrete mobile, 5511987654321, is shown as 551187654321 after one hop |
| Jid.ParseOfPrint | internal/provider/resolver.go:28-41 | a printed address with no other `@` is read back as it was if its user is plain, and otherwise not at all |
| Jid.ParsesToItselfExactly | internal/provider/resolver.go:28-41 | printing and parsing gives an address back iff its user is plain |
| Jid.WrittenAddress | internal/provider/resolver.go:28-41 | a plain user, an `@` and the server, printed and read |
| Resolver.SearchFindsFirst | internal/provider/resolver.go:69-90 | the search returns the first candidate with an acceptable account, if any |
| Resolver.Resolver.ResolvePNtoJID | internal/provider/resolver.go:21-46 | finds a live cache entry or the search's result, and stores the latter for 24 hours |
| Resolver.Resolver.CheckUserExists | internal/provider/resolver.go:54-99 | finds the same as the other lookup with the same cache effect, and tells "missing" from "unknown" |
| Resolver.VerdictsAreJustified | internal/provider/resolver.go:69-98 | "not registered" iff nothing is cached and every candidate was answered without an acceptable account; an error iff some candidate was not |
| Resolver.OneFailureIsAnError | internal/provider/resolver.go:92-95 | a concrete error although only the first of two candidates failed |
| Resolver.EntriesComeFromCalls | internal/provider/resolver.go:41-87 | over every run each cache entry is the uncached result of an earlier call with its key, expiring 24 hours later |
| Resolver.EntriesAreAcceptable | internal/provider/resolver.go:41-87 | over every run each entry is an acceptable account the oracle gave for a candidate of its key 24 hours before expiry |
| Resolver.OnlyNormalFormIsAsked | internal/provider/resolver.go:23-35 | only answers for the normal form, or for the phone itself if it has none, and its other spelling matter |
| Resolver.NormalFormIsAskedFirst | internal/provider/resolver.go:23-43 | with nothing cached an account of the normal form is found by both lookups and kept under it for 86,400 seconds |
| Resolver.FoundExactly | internal/provider/resolver.go:32-98 | with nothing cached an account is found iff an answer is registered, on the user server and has a user; the first one counts; a phone is missing iff all were answered and none is one |
| Resolver.SameNormalForm | internal/provider/resolver.go:23-31 | two phones with the same normal form find the same and share an entry |
| Resolver.FoundForADay | internal/provider/resolver.go:27-43 | a stored account is found without asking for 86,400 seconds after its answer, and asked for again from then on |
| Resolver.NationalFormatIsFound | internal/provider/resolver.go:23-43 | a concrete number in national format whose account is found under its other spelling |
| Resolver.CacheRefinesSearch | internal/provider/resolver.go:21-99 | for every oracle, after any run a call finds what the uncached search finds now or found, as printed and read again, in an earlier call less than 24 hours ago, not in the future if time does not run backwards |
| Resolver.ConstantOracleHidesCache | internal/provider/resolver.go:21-99 | with an unchanging oracle both lookups return what they return without a cache |
| Resolver.ConstantOracleShowsCacheExactly | internal/provider/resolver.go:21-46 | with an unchanging oracle a run makes the cache visible iff an entry is served and the account found has an `@` in its user |
| Resolver.AtSignShowsCache | internal/provider/resolver.go:27-41 | a concrete family of such runs: the account `a@b` is read back as `a` on the server `b` |
| Destination.FallbackFromHelpers | internal/provider/send.go:198-205 | the fallback through `toJID` and `toUserJID` in one formula |
| Destination.NumberToUser | internal/provider/send.go:982-1013 | digits become that user on the user server, and its printed address is read back |
| Destination.MissingServer | internal/provider/send.go:987-1010 | an address without a server gets the user server from `toUserJID` and none from `toJID` |
| Destination.ChooseDestination | internal/provider/send.go:164-210 | the destination, rejection or error, and the lookups that were made |
| Destination.SendsAreLookups | internal/provider/send.go:175-197 | sending changes the cache only as a run of lookups does |
| Destination.RejectionIsJustified | internal/provider/send.go:169-186 | a send is refused before sending iff the check applies and justifies it |
| Destination.NeverRefused | internal/provider/send.go:170-173 | recipients with `@g.us`, `@broadcast` or `@lid` are never refused |
| Destination.PhonesGoToUsers | internal/provider/send.go:164-210 | after any run a phone recipient goes to a nonempty user on the user server, is refused, or has no digits before its first `:` |
| Destination.AccountIsUsed | internal/provider/send.go:175-197 | with nothing cached, a number that is an account is where the message goes, checked or not |
| Destination.UnresolvedPhone | internal/provider/send.go:198-205 | a phone for which nothing is found goes to its toggled digits on the user server, or is invalid without any |
| Destination.UnresolvedAddress | internal/provider/send.go:200-201 | a plain address for which nothing is found is kept as written |
| Destination.FailedCheckIsNoCheck | internal/provider/send.go:177-197 | a check that fails leaves the destination as if it were switched off |
| Destination.CheckOnlyRejects | internal/provider/send.go:175-197 | with an unchanging oracle the check only ever rejects, never redirects |
| Destination.ConstantOracleHidesCacheFromSend | internal/provider/send.go:175-197 | with an unchanging oracle the cache never decides a destination |
| CallReply.PrintInjective | internal/provider/events.go:881-889 | on one server the printed address, which is the cache's key, identifies user and device, unless a user text has a colon |
| CallReply.LidCache.Get | internal/provider/caches.go:69-78 | an expired or incomplete entry is never served |
| CallReply.LidCache.Put | internal/provider/caches.go:80-84 | one entry is stored, for 30 minutes |
| CallReply.LidCache.ResolveLIDToAD | internal/provider/events.go:876-899 | cache, then retries: the result, the number of store lookups, the new cache for any entries that other handlers store during the retries, and that every entry stays usable |
| CallReply.AttemptFindsUsable | internal/provider/events.go:884-896 | the retries return the first usable answer, within `attempts` lookups |
| CallReply.FewLookups | internal/provider/events.go:881-896 | at most `attempts` lookups, none while a cached entry is served |
| CallReply.ResolvedExactly | internal/provider/events.go:876-899 | found iff there is a store and a live entry or a usable answer within the attempts; the entry, or else the first usable answer, with the exact number of lookups |
| CallReply.ServedForHalfAnHour | internal/provider/caches.go:69-84 | a stored answer is served to every session for 1,800 seconds without asking, and asked for again from then on |
| CallReply.CallIsItsSteps | internal/provider/events.go:876-899 | a call is its two locked sections in a run, whatever sections of other calls lie between them |
| CallReply.EntriesAreAnswers | internal/provider/events.go:884-891 | over every run, overlapping calls included, each entry is a usable answer of some session's store for a LID with that key, 30 minutes before it expires |
| CallReply.CacheHoldsNoLid | internal/provider/caches.go:69-84 | over every run each stored address is non-LID with a user and a server |
| CallReply.ResolutionIsRecent | internal/provider/events.go:876-899 | after any run a resolved address was given by a store for this LID, now by the session's own or less than 30 minutes ago |
| CallReply.ReplyToCall | internal/provider/events.go:79-119 | when and where a reply to a rejected call is sent, the effect on the cache, and that no reply from a valid cache goes to the lid server |
| CallReply.NoReplyToLid | internal/provider/events.go:79-119 | after any run, overlapping calls included, no reply goes to the lid server; its destination is the caller's own or a recent answer for the caller |
| CallReply.ReplyExactly | internal/provider/events.go:67-116 | the exact condition of each kind of reply |
| CallReply.LidCallerIsAnswered | internal/provider/events.go:107-119 | a LID caller is answered at the live entry, or else at the first usable address that three lookups give |
| CallReply.StrippedUser | internal/provider/events.go:94-103 | the user text is kept up to its first colon |
| CallReply.DeviceSuffixKept | internal/provider/events.go:92-105 | a printed device suffix is stripped iff it stands in the user text; the reply to a caller with a device number and a plain user text is addressed to that device |
| CallReply.CompanionIsAddressedOnItsDevice | internal/provider/events.go:92-105 | a concrete caller, printed 1234567890:10@s.whatsapp.net, whose suffix is not stripped |
| CallReply.DisplayMaybeResolve | internal/provider/events.go:853-872 | the displayed name of a group, an address, a resolved LID and an unresolved one |
| Calls.HandleCallRejection | internal/provider/events.go:67-130 | the whole handler, with any loads between its two reads of the settings: with both reject variables unset a call is rejected iff the latest load before it had a text, the reply is the latest loaded text, and it never goes to a LID |
| Calls.MessageIsLoadedText | internal/provider/events.go:68-83 | with both reject variables unset, a rejected call's message is the trimmed, nonblank text of the latest load that carried one, whatever was loaded since |
| Overrides.LoadInto | internal/provider/client.go:235-277 | the record after one load, for every environment; what histories of loads make of it is Overrides.LoadsFollowLatest |
| Overrides.Wrap64 | internal/provider/client.go:273 | the 64-bit product: in range and congruent to the exact one |
| Overrides.DurationExact | internal/provider/client.go:272-275 | durations are exact up to 9,223,372,036 seconds |
| Overrides.DurationWraps | internal/provider/client.go:273 | every duration is the product modulo 2^64, read as signed |
| Overrides.LatestMeaning | internal/provider/client.go:235-277 | the latest value is that of the last load that carries the field |
| Overrides.LoadsFollowLatest | internal/provider/client.go:223-278 | after any loads a field with its variable set is not overridden, any other follows the latest load that carried it |
| Overrides.EnvironmentWins | internal/provider/client.go:179-278 | a variable that is set keeps the manager's value |
| Overrides.RejectionUsesItsOwnMessage | internal/provider/client.go:240-252 | with both reject variables unset, calls are rejected iff the latest load had a text, and the reply is that text |
| Overrides.MessageAcrossLoads | internal/provider/events.go:68-80 | loads between reading the two settings never leave a rejected call with a blank message: it is the latest loaded text |
| Overrides.IntervalPositive | internal/provider/client.go:112-121 | the interval is positive iff the manager's is or an effective load gave a positive 64-bit duration |
| Overrides.SettingsFollowLoads | internal/provider/client.go:112-121 | whether it runs and how often: the latest loaded flag and positive duration unless the variable is set, the manager's settings otherwise |
| Overrides.LastLoadDecides | internal/provider/client.go:268-275 | on the loads: the last positive number of seconds and the last flag decide, whatever the manager's settings are |
| Overrides.StartsWithoutIntervalExactly | internal/provider/client.go:107-144 | a refresher starts without a positive interval iff a load switched it on, the manager was not enabled and no load gave an interval |
| Overrides.OneLoadStartsWithoutInterval | internal/provider/client.go:268-271 | one load that only switches the refresher on does so |
| Presence.RunKeepsInv | internal/provider/client.go:125-175 | in every run held tokens are live and belong to their session, and no client is registered twice |
| Presence.ConnectExactly | internal/provider/client.go:281-414 | a Connect fails iff the session is not registered and no client can be built; otherwise the returned client is registered |
| Presence.LiveWasStarted | internal/provider/client.go:107-144 | every live refresher comes from a Start of its session, with its client and interval, that said it should run |
| Presence.TokensHeldOnce | internal/provider/client.go:125-141 | in every run no token is held by two entries |
| Presence.OtherSessionsUntouched | internal/provider/client.go:281-481 | a step of one session leaves the entry and refreshers of every other session as they are |
| Presence.RefreshersAreConserved | internal/provider/client.go:107-175 | in every run the live refreshers of a session are the held one plus one per Disconnect that removed an entry holding one |
| Presence.DisconnectCleansUp | internal/provider/client.go:469-481 | a Disconnect leaves no refresher of its session iff its entry held none and none leaked before |
| Presence.StopThenDisconnect | internal/provider/client.go:168-175 | stopping first never leaks |
| Presence.ReloadWhileOnlineLeaks | internal/provider/client.go:483-496 | a session reloaded while online ends with two live refreshers |
| Presence.CancelledStaysCancelled | internal/provider/client.go:132-137 | a cancelled token never revives |
| Presence.LeakedStaysLive | internal/provider/client.go:469-481 | a refresher that no entry holds is live for ever |
| Presence.HeldServesRegistered | internal/provider/client.go:107-144 | in every run a held refresher serves the registered client iff the event that started it came from that client |
| Presence.LastEventDecides | internal/provider/client.go:107-175 | in every run a registered client has a refresher iff the last event of its session was a start, and the refresher serves the client of that event |
| Presence.LostToOtherExactly | internal/provider/events.go:143-152 | after any run a refresher is lost to another client's event iff the last event was a start and a stop raised by a different client follows |
| Presence.LateEventStopsNewClient | internal/provider/events.go:143-152 | a late event of a replaced client cancels the new client's refresher |
| Presence.LateEventServesOldClient | internal/provider/client.go:107-144 | a late event of a replaced client starts a refresher that serves the old client |
| Presence.OneClientBetweenDisconnects | internal/provider/client.go:281-414 | two successful Connects of a session return the same client iff no Disconnect of it lies between them |
| Presence.ReloadReturnsNewClient | internal/provider/client.go:483-496 | a reload interleaved with any steps returns a client that was not registered when its Disconnect ran |
| Sessions.ClientManager.constructor | internal/provider/client.go:78-95 | a new manager is in the initial state |
| Sessions.ClientManager.EnableAlwaysOnline | internal/provider/client.go:99-105 | always online is switched on with the given interval, or one minute if it is not positive |
| Sessions.ClientManager.LoadSessionOverrides | internal/provider/client.go:223-278 | an effective load extends the session's history, and the records stay what the histories make them |
| Sessions.ClientManager.LoadsExactly | internal/provider/client.go:223-235 | a load has no effect iff the address of the store is blank, the session name has no digit, or nothing is stored |
| Sessions.ClientManager.Connect | internal/provider/client.go:281-414 | the Connect step: the registered client, a new one, or an error, with the overrides loaded for a new one |
| Sessions.ClientManager.Disconnect | internal/provider/client.go:469-481 | the Disconnect step |
| Sessions.ClientManager.Reload | internal/provider/client.go:483-496 | an unknown session is an error that changes nothing; otherwise its Disconnect and Connect run with any sections of other callers before and between them, and the client returned was not registered before; undisturbed, it performs one load |
| Sessions.ClientManager.OnlineSettings | internal/provider/client.go:111-121 | whether a refresher should run and its interval; what they are after any loads is Overrides.SettingsFollowLoads |
| Sessions.ClientManager.StartRefresher | internal/provider/client.go:125-141 | the Start step, for settings that were in effect when they were read: the entry's previous token is cancelled, a new one is live |
| Sessions.ClientManager.MaybeStartAlwaysOnline | internal/provider/client.go:107-166 | the Start step with the settings in effect; its interval fails to be positive exactly as the loads so far say |
| Sessions.ClientManager.StopAlwaysOnline | internal/provider/client.go:168-175 | the Stop step |
| Sessions.ClientManager.HandleLifecycle | internal/provider/events.go:138-152 | connected starts, disconnected, logged out and stream replaced stop, whichever client raised them |
| Sessions.ClientManager.RefreshersAreConserved | internal/provider/client.go:107-175 | every valid manager is in a state its run of sections leads to, so conservation and the invariant hold of the object |
| Sessions.ClientManager.LiveIntervalPositive | internal/provider/client.go:107-144 | in every valid state a live refresher's interval is positive iff the manager's was at its start or a load that counted then gave a positive 64-bit duration |
| Sessions.ClientManager.LiveSettings | internal/provider/client.go:107-144 | a live refresher runs, and at its interval, as the loads its start read say, and as the manager's settings where they say nothing |
| Sessions.ClientManager.EnabledManagerTicks | internal/provider/client.go:107-144 | a refresher started while the manager was enabled, or with the variable set, always has a positive interval |
| Sessions.ClientManager.GetRejectCalls | internal/provider/client.go:179-184 | in every valid state: the manager's setting if REJECT_CALLS is set or nothing was loaded, else whether the last load had a text |
| Sessions.ClientManager.GetRejectMsg | internal/provider/client.go:186-191 | in every valid state: the manager's message if its variable is set, else the last loaded text, if any |
| Sessions.ClientManager.GetAutoMarkRead | internal/provider/client.go:193-198 | in every valid state: the manager's setting if its variable is set, else the latest load that carried the flag |
| Sessions.ClientManager.GetIgnoreStatusBroadcast | internal/provider/client.go:200-205 | in every valid state: the manager's setting if its variable is set, else the latest load that carried the flag |
| Sessions.ClientManager.GetIgnoreNewsletters | internal/provider/client.go:207-212 | in every valid state: the manager's setting if its variable is set, else the latest load that carried the flag |

## Left out

- Resolver.ConstantOracleHidesCache: assumes that no acceptable account has an `@` in its user, as do PhonesGoToUsers, CheckOnlyRejects and ConstantOracleHidesCacheFromSend; otherwise the cache shows exactly as ConstantOracleShowsCacheExactly says.
- Destination.ChooseDestination: a recipient written with an agent or a device is `Invalid` here, because the parser that reads it belongs to the library and is not part of this model.
- The printer of addresses with a device belongs to the library; CallReply prints them in the form shown in the comment at internal/provider/events.go:92.
- The agent and integrator numbers of an address, and whether the rejection and the reply reach the server: not read by the modelled decisions.
- IEEE rounding: `float64` is modelled by exact reals, so a result that depends on the last bit of a floating-point computation can differ.
- MP3 decoding, Opus encoding and Ogg writing: foreign code; the decoder's output and the failures of the other two are inputs.
- The ffmpeg conversions, media download and upload, the message queue, the HTTP server, Redis and the SQLite store: I/O through libraries.
- The text, media and reply-context branches of `Send` and the payload assembly of incoming messages: wide field copying.
- Non-ASCII text: Unicode whitespace and case mappings in names and phones.
- Addresses with an agent or a device in their printed form: `ParseJID` here reads `user@server` with a plain user; the library's own parser is not part of this model.
- The phone-number library: the E.164 normal form of a number is a function argument.
- Latency inside one lookup: a query, its answer and the storing of the result happen at one time.
- Data races on the phone cache and on the override records, which the source also reads and writes outside its lock: lookups and loads are sequential steps.
- Session status reports, QR codes, the restoring of saved sessions and fake calls: no decisions beyond the modelled ones.
- The avatar and group-name caches: the same pattern as the LID cache with a simpler validity test.
- Starts and stops of presence as messages: a refresher is live or cancelled; what it sends is not modelled.
- Entries without a client: the source tests for them but never registers one.
