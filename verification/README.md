# Verified models of Envoryx

Envoryx manages Docker development environments. Most of it is HTTP, command line and Docker
plumbing; this project models the self-contained algorithms and state machines inside it and
proves what they are for. `dafny verify dfyconfig.toml` checks everything.

| module | models | main results |
|---|---|---|
| `LoginLimiter` | the sign-in limiter | ten failures of a key span more than 15 minutes in every run, and the bound is tight; collecting is invisible |
| `Sessions`, `SessionOverlap` | browser sessions | the lazily written expiry lies between exact sliding expiry and the same shortened by min(1 min, idle/4); with overlapping requests, shortened by what the longest check adds |
| `Support` | consent and one-time tickets of the hoster's support | over every interleaving: five open tickets, each redeemed once and in time, no request accepted without consent; exactly when a revocation ends every session |
| `ExecStream`, `ExecStreamLaws` | the UTF-8 re-chunker of the exec stream | nothing lost, exactly which frames a breaking connection delivers, the split into writes does not matter for any bytes, frames of valid UTF-8 are valid |
| `AnsiStripper` | the escape-sequence stripper | every input has exactly one reading as text and escape sequences, and the output is its text |
| `ShellWords` | quoting a cron job's words | a POSIX word lexer reads back exactly the words, if and only if they hold no NUL |
| `SigV4` | canonical strings of AWS signatures | percent-encoding round trips; two queries have one canonical form exactly when they say the same, and that form is spelled out in byte order |
| `Scope`, `Guard` | access levels and the route guard | the finite scan for the highest level is the supremum over all ids; a token never passes where its owner would not; every role, level and refusal spelled out |
| `Acme` | Let's Encrypt against the hoster's certificate | whose certificate is served in every interleaving and after a restart, exactly when a pending handler, a `Clear` or taking back breaks that; one issuance at a time, no wake-up lost |
| `Template` | templates of addon definitions | checking and rendering see the same leftmost placeholders |
| `Hostnames`, `BaseDomain` | the base domain while a plan fixes one | over every run: exactly when the fixed domain or the own last choice is in force, and when the own one comes back |
| `Route53`, `ZoneNames` | challenge records and zone names | every set of the zone is conserved over every run, and exactly when the zone is restored; names and zones fit together |
| `Seqs`, `Sorting`, `Clock` | library operations the code calls | splitting, joining, byte order, sorting, time |

Where the source updates an object, so does the model: `Limiter`, `Service`, `Desk`,
`Stream`, `Writer`, `Stripper`, `Manager`, `Store` and `Zone` are classes whose methods are
tied to functions on their values, and the theorems over runs are about these functions. Time
is a number of nanoseconds that the caller passes in. Fresh random tokens are distinct
numbers, and a hash identifies its token. The database is a map or a field whose writes
succeed unless a parameter says otherwise.

## Findings

Where a promise does not hold of the code, the model follows the code and the exact condition,
or for an expiry how far it is off, is proved:

- An unusable base domain in a plan (a text that is no host name) after a usable one makes the
  instance keep the usable one after the release (internal/api/system.go:601-624;
  `OwnComesBack`, `UnusableFixKeepsOldDomain`).
- A base domain entered with two trailing dots comes back from a plan with none
  (internal/project/proxy.go:79-84; `FixedElseOwn`, `OwnComesBack`,
  `DoubledDotComesBackWithout`).
- Using a certificate's domain as the base domain does not ask the plan
  (internal/api/acme.go:62-66), and an admin's change asks it some time before it is stored
  (internal/api/system.go:505-513 and 734-738). The fixed domain stays in force exactly when
  everything so stored is the fixed one (`FixedElseOwn`); another one stays after the release
  too (`OwnComesBack`, `UnaskedDomainOutlivesPlan`).
- Cleaning up a challenge value that was in the record set before removes the foreign value
  (internal/acme/dns_route53.go:180; `RecordExactly`, `RestoresUnlessThere`).
- A support session whose consent ran out by itself works again after the next consent if
  nobody used it meanwhile (internal/auth/sessions.go:306-312; `LapsedSessionGoesOn`).
- A redeem that is past its consent check opens a session after the consent was taken back
  (internal/auth/support.go:97-100 and 158-169). This is the only way a session can be there
  then (`RevocationEndsExactly`), and it works once consent is given again
  (`RevokedRedeemStillOpens`).
- A slow request can move a session's expiry back, because the row is written without being
  looked at again (internal/auth/sessions.go:282-319, internal/store/sessions.go:43-50). By how
  much is bounded by the longest check (`OverlappingAtMostSlackShorter`, `SlowCheckMovesBack`).
- A failed write of a session's expiry can time out a busy session
  (internal/auth/sessions.go:315-319; `ExpiryWithinGrace`, `FailedWriteTimesOutBusySession`).
- The handlers that store or clear the configuration, or set or remove an own certificate, ask
  for the hoster first and act later (internal/api/acme.go:32-57 and 73-84,
  internal/api/domains.go:132-176). If the hoster's certificate comes in between, the change of
  an own certificate replaces it, and clearing can remove it unless nothing is configured nor
  about to be; nothing else can (`OwnershipExactly`). Taking it back can then remove an own one
  (`TakenBackDeletesOwnExactly`). `Clear` looks at the names only (`ClearKeepsHosterExactly`),
  and an own certificate that is stored between its look and its removal goes although it does
  not cover the domain (internal/acme/acme.go:298-307; `ClearRemovesForeignExactly`).
- After `Clear` (internal/acme/acme.go:298-314) an issuance that was under way still stores its
  certificate (internal/acme/acme.go:560-570), and a certificate for a domain configured
  earlier stays; nothing else leaves a Let's Encrypt certificate (`ClearedExactly`).
- After a restart the hoster's certificate stays in the store when it is taken back, unless a
  certificate was stored or removed since (internal/acme/acme.go:184-191;
  `TakenBackAfterRestart`).
- Removing an own certificate, or storing one that does not cover the configured domain, wakes
  nobody although a certificate is missing then (internal/api/domains.go:154 and 170). These two
  are the only ways (`NoWakeUpLost`, `OwnChangeWakesNobody`).

## Model

| member | source | states |
|---|---|---|
| LoginLimiter.SharedCounter | internal/auth/sessions.go:435-446 | two attempts share a counter exactly when they share an address or a counted account; addresses and accounts never collide |
| LoginLimiter.BlockTimes | internal/auth/sessions.go:424-429 | blocks of 30, 60, 120, 240, 480 s and then the 900 s cap |
| LoginLimiter.FailuresInARowBlock | internal/auth/sessions.go:448-479 | after failures in a row with pauses of at most 15 minutes, each key of the attempt is blocked from the fifth on, for the seconds of that table after the last one; a longer pause before starts over |
| LoginLimiter.Limiter.Allow | internal/auth/sessions.go:448-458 | collects first, then answers whether no key of the attempt is blocked |
| LoginLimiter.Limiter.Fail | internal/auth/sessions.go:460-479 | each key of the attempt counts one more failure, starting over after the window, and nothing else changes |
| LoginLimiter.Limiter.Reset | internal/auth/sessions.go:481-487 | forgets the counters of the attempt |
| LoginLimiter.Limiter.Gc | internal/auth/sessions.go:489-498 | with a thousand counters, drops exactly the dead ones |
| LoginLimiter.CollectedExactly | internal/auth/sessions.go:489-498 | from a thousand counters on, exactly those go whose last failure is more than 15 minutes ago and whose block is over |
| LoginLimiter.ResetUnblocks | internal/auth/sessions.go:481-487 | after a successful sign-in its address and account are let through at any time, and no other counter changed |
| LoginLimiter.CollectingInvisible | internal/auth/sessions.go:448-498 | dropping any dead counters at any points of any run changes no answer of `allow` |
| LoginLimiter.LimiterGcInvisible | internal/auth/sessions.go:448-498 | the limiter, with its own collecting, answers as one that never collects |
| LoginLimiter.TenFailuresExceedWindow | internal/auth/sessions.go:424-479 | whatever the counters were, any ten failures in a row of a key not reset span more than 15 minutes, in every serialised run |
| LoginLimiter.BoundIsTight | internal/auth/sessions.go:460-479 | a run with nine failures in 450 s and ten in 930 s, so the bound cannot be improved |
| Sessions.Service.StartSession | internal/auth/sessions.go:218-242 | a session for an enabled user only, with a full idle time |
| Sessions.Service.ValidateSession | internal/auth/sessions.go:278-330 | lets in exactly within both timeouts, for a user who is there and not disabled and, as support, under a consent that holds; then the row is written when a minute or a quarter of the idle time has passed, else it goes; all other rows stay |
| Sessions.NewSessionLetsIn | internal/auth/sessions.go:218-330 | who is enabled and has just signed in is let in at once |
| Sessions.ExpiryWithinGrace | internal/auth/sessions.go:289-319 | after an accepted request at a the expiry is at most a + idle, and at least a + idle - min(1 min, idle/4) exactly when no due write failed |
| Sessions.NeverLonger | internal/auth/sessions.go:289-319 | over every run of requests one after another, whatever writes fail, none is accepted that exact sliding expiry would refuse |
| Sessions.AtMostGraceShorter | internal/auth/sessions.go:289-319 | over every such run, while writes succeed, no request is refused that exact sliding expiry with the shortened idle time would accept |
| Sessions.SlidingWithinBound | internal/auth/sessions.go:218-319 | both bounds for every such run of a new session |
| SessionOverlap.OverlappingNeverLonger | internal/auth/sessions.go:278-330 | over every interleaving of requests, whatever writes fail: the row expires at most the idle time after the latest accepted request, is gone only after a refusal, and whoever passes comes within the idle time |
| SessionOverlap.OverlappingAtMostSlackShorter | internal/auth/sessions.go:278-330 | while writes succeed and no check takes longer than d, it expires at most d + min(d, grace), or the grace, too early, and no request is timed out otherwise |
| SessionOverlap.SlowCheckMovesBack | internal/store/sessions.go:43-50 | a check of length d can move the expiry back by d, so the grace alone is no bound |
| SessionOverlap.AloneIsVisit | internal/auth/sessions.go:278-330 | a request that no other one overlaps does in its steps what the check in one step does |
| Sessions.BusySessionKept | internal/auth/sessions.go:313-319 | requests spaced at most idle - min(1 min, idle/4) apart are accepted exactly until the absolute timeout |
| Sessions.FailedWriteTimesOutBusySession | internal/auth/sessions.go:315-319 | with a failed write a session is timed out ten seconds after an accepted request |
| Sessions.AdmissionOnlySampled | internal/auth/sessions.go:294-312 | a request is accepted exactly when no request so far found the user locked out and the timeouts alone accept it |
| Support.Requested | internal/auth/support.go:84-94 | refused exactly when an end lies in the past; an end is kept in whole seconds |
| Support.Desk.SetSupportAccess | internal/auth/support.go:84-102 | stores the consent or refuses; taking it back ends all support sessions |
| Support.Desk.IssueSupportLogin | internal/auth/support.go:114-146 | needs consent, drops expired tickets, fails with five left, else adds one for two minutes |
| Support.Desk.RedeemSupportLogin | internal/auth/support.go:150-171 | the ticket is gone in any case; a session needs an unexpired ticket and active consent |
| Support.InsertedExactly | internal/auth/support.go:134-146 | asking for a link keeps exactly the tickets that have not expired, and with fewer than five adds one for two minutes and at most a hundred characters of the name |
| Support.AloneIsIssue | internal/auth/support.go:114-146 | the steps of an asking call that nothing interrupts have the effect of the method |
| Support.AloneIsRedeem | internal/auth/support.go:150-171 | so have the steps of a redeeming call |
| Support.AloneIsVisit | internal/auth/sessions.go:278-330 | and the two steps of a check are the check of a session in one step |
| Support.StepKeeps | internal/auth/support.go:53-171 | every step of every call keeps the invariant that ties tickets, calls and history together |
| Support.SupportOnlyWithConsent | internal/auth/support.go:53-171 | over every interleaving: at most five open tickets, each redeemed at most once and within two minutes, each session from its own ticket, each accepted request under the consent of its moment |
| Support.StoredConsentHolds | internal/auth/support.go:84-94 | a consent accepted with an end holds at once exactly when it does not end within the current second |
| Support.LapsedSessionGoesOn | internal/auth/sessions.go:306-312 | over every run of requests around a lapse and a renewal: a request is accepted exactly when none so far came in the gap and the timeouts alone accept it |
| Support.RevocationEndsExactly | internal/auth/support.go:97-171 | once the consent is taken back and the sessions are ended, some run without a new consent has a session exactly when a redeem was past its consent check |
| Support.RedeemCanBeAboutToStart | internal/auth/support.go:114-169 | from every start with consent some run has a redeem past its consent check |
| Support.RevokedRedeemStillOpens | internal/auth/support.go:158-169 | the session it opens after the revocation works once consent is given again |
| ExecStream.CompleteRunesFindsCut | internal/api/exec.go:200-213 | the walk back finds the one rune that is cut at the end, exactly when there is one, and at most three bytes |
| ExecStream.CutLength | internal/api/exec.go:202-213 | the loop computes the length without a cut rune |
| ExecStream.RuneLen | internal/api/exec.go:217-229 | between one and four bytes; a continuation byte counts as one |
| ExecStream.LeadingBits | internal/api/exec.go:217-229 | the leading bits 110, 1110 and 11110 announce two, three and four bytes; 10 begins no rune |
| ExecStream.Stream.Write | internal/api/exec.go:139-150 | a frame goes out unless the stream is dead or breaks with it |
| ExecStream.Stream.NewWriter | internal/api/exec.go:152-156 | one more writer, with nothing held back |
| ExecStream.Stream.FlushPartial | internal/api/exec.go:161-170 | sends what each writer holds back, in order, and empties them all |
| ExecStream.Writer.Write | internal/api/exec.go:181-198 | sends everything up to the cut rune and keeps the rest |
| ExecStreamLaws.NothingLost | internal/api/exec.go:139-198 | for any interleaving, a writer's frames and its rest are the bytes it was given, or a beginning of them once the connection is broken; the rest has at most three bytes |
| ExecStreamLaws.DeliversExactly | internal/api/exec.go:120-150 | of the frames handed over as many go out as the connection takes; the stream is dead exactly when one more was tried, and has begun exactly when one went out |
| ExecStreamLaws.FlushEmpties | internal/api/exec.go:161-170 | flushing each writer in turn is what `FlushPartial` does and leaves nothing held back |
| ExecStreamLaws.SplitDoesNotMatter | internal/api/exec.go:181-198 | for any bytes, the text sent and the rest are those of a single write of the whole |
| ExecStreamLaws.CutIsValid | internal/api/exec.go:202-229 | cutting a beginning of valid UTF-8 (section 4 of RFC 3629) leaves valid UTF-8, and cuts nothing when it is complete |
| ExecStreamLaws.Utf8Exactly | internal/api/exec.go:172-180 | the valid byte sequences meant here are exactly the encodings (section 3 of RFC 3629) of sequences of Unicode scalar values |
| ExecStreamLaws.FramesAreUtf8 | internal/api/exec.go:172-198 | while a writer's bytes begin valid UTF-8 every frame is valid on its own, and nothing is held back once they are complete |
| AnsiStripper.Stripper.Write | cmd/envoryx/cli_ansi.go:19-57 | appends what the automaton lets through and moves on its state |
| AnsiStripper.SplitDoesNotMatter | cmd/envoryx/cli_ansi.go:9-17 | any split into writes gives the output and the final state of one write |
| AnsiStripper.StrippingTwice | cmd/envoryx/cli_ansi.go:19-57 | the output of any bytes holds no ESC, and stripping it again changes nothing |
| AnsiStripper.StandardCsiIsProper | cmd/envoryx/cli_ansi.go:38-41 | the CSI sequences of section 5.4 of ECMA-48 are among the tokens |
| AnsiStripper.StripperMeaning | cmd/envoryx/cli_ansi.go:19-57 | of any text, CSI, OSC, charset and two-byte sequences and one unfinished sequence, exactly the text comes out |
| AnsiStripper.EveryInputHasMeaning | cmd/envoryx/cli_ansi.go:19-57 | every byte sequence is such a list of tokens, and its output is their text |
| AnsiStripper.ReadingUnique | cmd/envoryx/cli_ansi.go:19-57 | and it is only one such list |
| ShellWords.ShellQuote | cmd/envoryx/cli_workers.go:547-563 | plain words stay, all others are put in single quotes |
| ShellWords.PlainWordsStay | cmd/envoryx/cli_workers.go:547-563 | exactly the non-empty words of letters, digits and _-.,:/@%+= stay |
| ShellWords.CronCommandArg | cmd/envoryx/cli_workers.go:529-545 | without words the flag's value, with one that word as the line, else the quoted words |
| ShellWords.QuotingRoundTrip | cmd/envoryx/cli_workers.go:533-563 | for two or more words, the lexer of section 2.2 of the POSIX Shell Command Language reads back exactly them, if and only if none holds a NUL |
| ShellWords.QuotingInjective | cmd/envoryx/cli_workers.go:533-563 | different lists of two or more words never give the same line, whatever characters they hold |
| ShellWords.SingleWordIsLine | cmd/envoryx/cli_workers.go:529-539 | a single word is read back as that word exactly when it is literal for the shell |
| ShellWords.LiteralExactly | cmd/envoryx/cli_workers.go:529-539 | which are the words without white space, quotes, operators, expansions, patterns or a leading # |
| ShellWords.DoubleQuotes | cmd/envoryx/cli_workers.go:529-539 | the lexer reads double quotes as section 2.2.3 of the Shell Command Language says |
| SigV4.URIEncode | internal/awssig/sign.go:121-134 | the loop computes the encoding |
| SigV4.DecodeEncode | internal/awssig/sign.go:121-134 | percent-decoding (section 2.1 of RFC 3986) undoes the encoding, with either reading of + |
| SigV4.EncodeInjective | internal/awssig/sign.go:121-134 | different texts have different encodings |
| SigV4.EncodedIffEncode | internal/awssig/sign.go:121-134 | the encodings are exactly the texts of unreserved characters (section 2.3 of RFC 3986) and % with two uppercase digits for others |
| SigV4.EncodeSpelledOut | internal/awssig/sign.go:121-134 | letters, digits, hyphen, dot, underscore and tilde stay; every other byte becomes % and its two uppercase digits |
| SigV4.URIEncodePath | internal/awssig/sign.go:109-119 | the segments are encoded in place and joined; an empty path is / |
| SigV4.PathKeepsSegments | internal/awssig/sign.go:109-119 | a non-empty path keeps its segments, each of which decodes back |
| SigV4.PathAlmostInjective | internal/awssig/sign.go:109-119 | paths are encoded alike exactly when equal, except that the empty path and / are one |
| SigV4.CanonicalQuery | internal/awssig/sign.go:79-107 | the loops and the sort compute the canonical query |
| SigV4.SortPairs | internal/awssig/sign.go:96-101 | the pairs end up in order of key and value, in place |
| SigV4.ListedExactly | internal/awssig/sign.go:96-106 | two lists of pairs give the same sorted listing exactly when they are rearrangements of each other |
| SigV4.CanonicalSaysTheSame | internal/awssig/sign.go:81-107 | the output is the ascending list of encoded pairs, and decoding it gives the input's pairs rearranged |
| SigV4.CanonicalSpelledOut | internal/awssig/sign.go:96-106 | it is key=value for each pair it says, joined by &, the keys ascending at their first differing byte, equal keys by their values |
| SigV4.QueryInParts | internal/awssig/sign.go:85-90 | a query says what its parts between & say, in order; empty parts say nothing |
| SigV4.PartReads | internal/awssig/sign.go:79-92 | a part is cut at its first =; without one it is a key with an empty value |
| SigV4.PlainReads | internal/awssig/sign.go:91-92 | without escapes + reads as a blank and everything else as itself |
| SigV4.EscapeReads | internal/awssig/sign.go:91-92 | an escape reads as its byte, with digits of either case |
| SigV4.MalformedReadsEmpty | internal/awssig/sign.go:91-92 | a % without two hexadecimal digits makes the whole text empty |
| SigV4.CanonicalForm | internal/awssig/sign.go:81-107 | two queries have the same canonical form exactly when their multisets of decoded pairs are equal |
| SigV4.CanonicalIdempotent | internal/awssig/sign.go:81-107 | canonicalising twice changes nothing |
| SigV4.CanonicalIgnoresOrder | internal/awssig/sign.go:81-107 | every rearrangement of the parts between & gives the same string |
| Scope.ComputeMaxScope | internal/auth/scope.go:134-150 | the two loops find the highest level, whatever the order of the roles |
| Scope.MaxScopeIsSupremum | internal/auth/scope.go:134-150 | that level is the supremum over the instance and every project id there could be, and some id has it |
| Scope.TokenScopeIsMeet | internal/auth/scope.go:117-132 | a token has the lesser of its scope and its owner's level, and none outside its project list |
| Scope.LimitedMeansReachable | internal/auth/scope.go:173-194 | the refusal names the project restriction exactly when the principal is confined and some project has the level |
| Scope.SessionInProject | internal/auth/scope.go:82-192 | in a project: an admin has every level, for everyone else an own role there decides, a developer operates and reads, a viewer reads, others have no access; the verdict names what is lacking |
| Scope.SessionOnInstance | internal/auth/scope.go:82-192 | on the instance the global role decides; who has none is limited to projects exactly when a role in one has the level |
| Scope.TokenRefusal | internal/auth/scope.go:188-200 | a token is told of its scope exactly when that does not reach |
| Guard.Decide | internal/api/api.go:197-236 | the guard answers with the first check that objects |
| Guard.ConfinedTablesOnlyRead | internal/api/api.go:135-177 | the tables for confined principals hold only routes Mount declares as read |
| Guard.ConfinedReaches | internal/api/api.go:135-177 | the routes without a project that a confined token and a confined user reach, by name |
| Guard.GuardExactly | internal/api/api.go:179-236 | a request passes exactly when the access does and neither a pending second factor, nor support, nor a suspension, nor the plan's lack of offsite stands against it, each but for its routes |
| Guard.GuardReason | internal/api/api.go:197-236 | the reason given is the first of these |
| Guard.TokenNeverExceedsOwner | internal/api/api.go:197-236 | for every route, valid role and token: if the token passes, so does its owner's session |
| Guard.TokenPassesExactly | internal/api/api.go:197-236 | outside the database browser a token passes exactly where its owner does and its own scope and list reach |
| Guard.TokenOpensDbTool | internal/api/api.go:179-208 | the database browser opens to a token exactly when some allowed project, or the instance, has the level for token and owner |
| Guard.HigherRoleKeepsRoutes | internal/api/api.go:150-236 | a higher global role never closes a route of a browser session |
| Acme.Manager.SetHoster | internal/acme/acme.go:181-200 | a stored certificate is served and remembered; taking it back removes it and kicks; otherwise nothing changes |
| Acme.Manager.SetConfig | internal/acme/acme.go:288-294 | the configuration is replaced, the last error forgotten and the loop kicked |
| Acme.Manager.Clear | internal/acme/acme.go:298-314 | the configuration goes, and a certificate that covers its domain |
| Acme.Manager.Begin | internal/acme/acme.go:397-414 | an issuance starts unless one is under way, nothing is configured or the hoster provides |
| Acme.Manager.Obtain | internal/acme/acme.go:560-570 | the new certificate is stored unless the hoster's came meanwhile |
| Acme.Manager.End | internal/acme/acme.go:415-431 | the flag is cleared; the hoster's taking over is no failure |
| Acme.Manager.CheckNeedsIssue | internal/acme/acme.go:346-355 | whether a configured domain lacks a certificate that lasts |
| Acme.CheckCovers | internal/acme/acme.go:357-366 | the names hold both the domain and its wildcard |
| Acme.CheckExactly | internal/acme/acme.go:346-366 | the check goes back to sleep exactly without a configuration, with a hoster, or with a certificate that names the domain and its wildcard and lasts 30 days |
| Acme.LoopObtains | internal/acme/acme.go:368-431 | a loop that wakes up, needs an issue and is not disturbed serves the new certificate, has taken the kick and waits again |
| Acme.LoopBegins | internal/acme/acme.go:373-414 | it begins, or is refused and waits to try again |
| Acme.HandlerPasses | internal/api/acme.go:32-38 | a handler passes its check exactly while no hoster provides |
| Acme.WithoutLock | internal/acme/acme.go:328-393 | kicks, the waiting and giving up need no lock |
| Acme.IssuanceEnds | internal/acme/acme.go:415-570 | an issuance serves its certificate exactly if no hoster has come and the store takes it, and only the store's failure is an error |
| Acme.LastErrorExactly | internal/acme/acme.go:288-431 | the error shown is that of the last issuance under the configuration; the hoster's taking over is none |
| Acme.CertificateOwnership | internal/acme/acme.go:181-570 | in every interleaving from any start: at most one issuance is under way, and without a hoster its certificate is served only as an untouched leftover of a restart; while it provides one, that one is served, if the handlers between check and action were harmless when it came |
| Acme.OwnershipExactly | internal/api/acme.go:32-84 | from any state with a free lock: a stored hoster certificate is served in every continuation in which the hoster provides, exactly when no pending handler changes an own certificate, and one clears the configuration only if there is none and none is about to be stored |
| Acme.TakenBack | internal/acme/acme.go:184-194 | after every such run taking back removes the hoster's certificate only; with a configuration an issue is needed and a kick waits |
| Acme.TakenBackDeletesOwnExactly | internal/api/domains.go:132-172 | taking back can remove another certificate exactly when a handler that stores an own one was pending when the hoster's came |
| Acme.ClearKeepsHosterExactly | internal/acme/acme.go:298-307 | acting after its check has become outdated, `Clear` keeps the hoster's certificate exactly when that does not cover the domain |
| Acme.ClearRemovesForeignExactly | internal/acme/acme.go:298-307 | `Clear` can remove a certificate that does not cover the domain exactly when it saw one that does and a pending handler stores one that does not |
| Acme.TakenBackAfterRestart | internal/acme/acme.go:184-191 | after a restart and any run, taking back leaves the hoster's certificate exactly when none was stored over it and it was not removed since |
| Acme.ClearedExactly | internal/acme/acme.go:298-570 | after clearing, in any run, some continuation without a new configuration serves a Let's Encrypt certificate exactly when an issuance was under way, or the one served did not cover the configured domain; an issuance under way has `issuing` set |
| Acme.NoWakeUpLost | internal/acme/acme.go:328-393 | over every run: when the loop waits for twelve hours and no kick is waiting, a certificate is missing exactly when one is configured, no hoster provides, and a removed own certificate or one that does not cover the domain decided what is served since the last check |
| Acme.OwnChangeWakesNobody | internal/api/domains.go:150-176 | changing an own certificate leaves the loop waiting, and a certificate is missing exactly when it was removed or does not cover the domain |
| Template.MatchExactly | internal/addon/addon.go:116 | at each position the scan finds exactly the placeholder of the regular expression |
| Template.CharsExactly | internal/addon/addon.go:116 | names are of ASCII letters, digits, underscore and dot; blanks are those of a regular expression |
| Template.MatchesAreLeftmost | internal/addon/addon.go:329 | the matches are placeholders one after another, and none begins in between |
| Template.LeftmostUnique | internal/addon/addon.go:372-376 | there is only one such list, so checking and rendering see the same one |
| Template.CheckTemplate | internal/addon/addon.go:327-342 | no error exactly when every name is a declared secret or a known variable; an error names one that is not |
| Template.KnownExactly | internal/addon/addon.go:327-342 | the names that can be filled are secret. with a declared name, and the twelve variables |
| Template.ValidateTemplates | internal/addon/addon.go:275-309 | passes exactly when every template of the definition is accepted |
| Template.RenderFillsGaps | internal/addon/addon.go:371-376 | all text outside the placeholders stays, in order, and each is replaced by its name's value |
| Template.AcceptedNeedsKnownOnly | internal/addon/addon.go:327-376 | an accepted template depends on the known names alone |
| Template.RejectedLeavesEmpty | internal/addon/addon.go:371-376 | a rejected one has a placeholder that stays empty |
| Template.RenderMap | internal/addon/addon.go:378-390 | there is a key order, and in every one the result is one rendered KEY=value for each entry |
| Template.KeyOrderUnique | internal/addon/addon.go:380-384 | a map has only one key order |
| Hostnames.WellFormedIsNormal | internal/validate/validate.go:187-201 | a well-formed host name is its own normal form |
| Hostnames.NormalExactly | internal/validate/validate.go:198-201 | white space at the ends goes, capitals become small, one final dot goes |
| Hostnames.WellFormedExactly | internal/validate/validate.go:187-196 | a name is well-formed exactly with at most 253 small letters, digits, hyphens and dots, letters or digits at the ends and beside every dot, and no 64 characters in a row without a dot |
| BaseDomain.Store.SetBaseDomain | internal/project/proxy.go:78-93 | stores the normal form of a host name, refuses anything else |
| BaseDomain.Store.KeepBaseDomainBeforePlan | internal/api/system.go:586-625 | remembers the own domain while the plan fixes one, and brings it back |
| BaseDomain.Store.ApplyPlanSettings | internal/api/system.go:559-579 | keeps first, then sets what the plan fixes |
| BaseDomain.Store.UpdateSettings | internal/api/system.go:505-513 | while fixed, only the fixed value can be sent |
| BaseDomain.FixedElseOwn | internal/api/system.go:505-625 | over every run of usable plans and of changes that ask the plan or do not: after each of them the fixed domain is in force while there is one, else the own last choice as it was stored, exactly when all that is stored unasked during a lock is the fixed domain, and an own one that is not the fixed one is normal when a lock ends |
| BaseDomain.OwnComesBack | internal/api/system.go:586-625 | after any values a plan fixed, and any changes meanwhile, releasing brings back the own domain exactly when the domain in force is the own one, or is the one noted last and the own one is normal; and what it brings back otherwise |
| BaseDomain.UnusableFixKeepsOldDomain | internal/api/system.go:601-624 | a usable and then an unusable text leave the usable one in force after the release |
| BaseDomain.DoubledDotComesBackWithout | internal/project/proxy.go:79-84 | a domain stored with a trailing dot comes back without |
| BaseDomain.UnaskedDomainOutlivesPlan | internal/api/acme.go:62-66 | another domain stored without asking the plan is in force during the lock and after the release |
| Route53.QuoteInjective | internal/acme/provider.go:173 | different values are quoted differently |
| Route53.QuoteReadsBack | internal/acme/provider.go:173 | a quoted value is read back as the value |
| Route53.SetNameExactly | internal/acme/dns_route53.go:115-130 | a set goes by its lower-case name with one final dot |
| Route53.Zone.Present | internal/acme/dns_route53.go:151-168 | the value is added to the set unless it is there; the handle names zone, name and value |
| Route53.Zone.Cleanup | internal/acme/dns_route53.go:170-191 | the value is removed, the set with the last one; a handle without three lines is an error |
| Route53.PresentExactly | internal/acme/dns_route53.go:151-166 | a new set lives 60 seconds and holds the value; one that is there keeps its time and records, in order |
| Route53.BadHandle | internal/acme/dns_route53.go:170-174 | cleaning up fails exactly for a handle with fewer than two newlines |
| Route53.HandleInThree | internal/acme/dns_route53.go:171-175 | a handle is read as its first line, its second line and all the rest |
| Route53.HandleRoundTrip | internal/acme/dns_route53.go:167-175 | a handle splits back into its parts exactly when zone and name hold no newline |
| Route53.SetConserved | internal/acme/dns_route53.go:151-191 | for any sequence over any names, with values that were not there before: every set is the original one plus the values presented in it and not cleaned up |
| Route53.ZoneRestoredExactly | internal/acme/dns_route53.go:151-191 | the zone is again the original one exactly when everything presented was cleaned up later |
| Route53.HandlesRestoreZone | internal/acme/acme.go:484-520 | cleaning up later by every handle that presenting returned restores the whole zone |
| Route53.RecordExactly | internal/acme/dns_route53.go:151-191 | for any zone and any sequence: a value is in a set afterwards exactly when it was there and was never cleaned up, or was presented and not cleaned up later |
| Route53.RestoresUnlessThere | internal/acme/dns_route53.go:151-191 | presenting and cleaning up restores the zone exactly when the value was not there before |
| ZoneNames.ZoneCandidates | internal/acme/provider.go:120-129 | the loop lists the names from the second label on, down to two labels |
| ZoneNames.HostNameExactly | internal/acme/provider.go:123 | all dots at either end go and capitals become small |
| ZoneNames.CandidatesAreSuffixes | internal/acme/provider.go:120-129 | these are the proper suffixes of the host name that begin at a label and have two or more, longest first |
| ZoneNames.RelativeNameRoundTrip | internal/acme/provider.go:131-135 | relative name, dot and zone give the host name exactly when the zone is a suffix that begins at a label |
| ZoneNames.RelativeNameElse | internal/acme/provider.go:131-135 | outside the zone it is the whole host name, for the zone itself it is empty |
| ZoneNames.CandidateRoundTrip | internal/acme/provider.go:120-135 | which holds for every candidate |

## Left out

- HTTP handlers, JSON, the command line, Docker, WebAuthn and OpenID Connect: I/O and thin wrappers around the models.
- Cryptography: hashing is taken as injective and random tokens as fresh; signing adds only hashing to the canonical strings.
- The ACME exchange, DNS requests and propagation polling: only the sections under the lock and the edits of the record set are modelled.
- TenFailuresExceedWindow: about sign-ins one after another, because `allow` and `fail` take the lock separately and attempts at the same moment can all be let through.
- SplitDoesNotMatter: about the writes before `flushPartial`, which the source calls once, at the end of a command.
- FramesAreUtf8: likewise about the writes before `flushPartial`.
- FixedElseOwn: about plans that fix host names; `OwnComesBack` is about all other plans too.
- NoWakeUpLost: about issuances of the background loop, which is the only caller of `Issue`.
- The counters of the limiter are values in a map; that the source shares each by pointer has no effect, since no pointer leaves the map.
- Purging expired sessions compares stored timestamps as text, which is not their order within one second; the store is not part of this model.
- In an issuing and a redeeming call the reading of the consent and of the clock is one step; in the check of a session they are two.
- Applying a plan is one step: a change of the base domain between keeping the own domain and setting the fixed one is not modelled.
- JSON's replacement of invalid UTF-8 in frames, which concerns only bytes that are not UTF-8.
- The error path of the stripper's writer: the sink takes every write.
- Shell features above words: the lexer refuses operators, expansions and patterns instead of performing them.
- Non-ASCII letters in host names: lower-casing and trimming are those of ASCII.
- Escapes of strconv.Quote for characters that are not printable: challenge values hold none.
- Route 53 answers are taken to name record sets in lower case, as the service stores them.
- The last attempt and success times of the certificate manager, notifications, and the validation of a configuration before it is stored.
- The other checks of an addon definition (names, images, ports, durations): easy members.
- The routes that no table of the guard names are kept as a level and a pattern; which of them Mount declares does not enter the proofs.
