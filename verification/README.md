# uBixVault: a verified model of its core

This project models the parts of uBixVault where correctness is hard to see from the code: splitting and
recombining the master key, fencing writes behind a database lease, replaying a replicated log, walking and
listing hierarchical storage, bounding and revoking trees of tokens, sealing, unsealing and rekeying the vault,
and four smaller stateful engines (versioned secrets, group membership, rate limiting, non-voter promotion).

Code that computes is modelled by functions; code that updates things by classes, arrays and loops. Each method
is proved against a function or a property, and the results are stated about every input, every run or every
interleaving. `dafny verify dfyconfig.toml` checks the whole project.

Modelling choices that hold throughout:

- Randomness, clocks and the answers of libraries are parameters. A random source that fails is a stream that is
  too short; a store that fails is a list of faults.
- Encryption is symbolic (a ciphertext opens only under its own key and at its own path) and token hashes are
  injective.
- JSON records are datatypes. Storage keys are byte strings, with the UTF-8 rule of the key check written out.
- Concurrency is a state machine over the statements that the database makes atomic.

| file | what it models |
|---|---|
| Galois, Polynomials, Bytes, Shamir | secret sharing over GF(2^8), from the field up |
| Fencing, LeaseProgress, Renewal | the MySQL lease, fenced writes, what the holder can do, and when it gives up |
| Keys, Utf8, Listing, Storage | storage keys, three ways to list them, walks, snapshots, subtree deletion |
| JoinTokens, Fsm | single-use join tokens and the replicated state machine under replay |
| Tokens, TokenTree, Races | token ceilings, tree revocation, the expiry sweep, and creations during a revocation |
| Barrier, Core, Lifecycle, Reopening | the encryption barrier, unsealing, rekeying, and whole runs of them |
| Versions, KV | versioned secrets and the history they refine |
| Groups, RateLimit, Promote | group closure, token buckets with eviction, promotion of non-voters |

## Where the code does not meet what is expected of it

Each of these is proved, with the exact condition under which the expectation holds.

- **A standby that writes.** Taking a lock handle is meant to keep a replica that has never been active from
  writing. `Fencing.StandbyMayWriteIff`: wherever a run stands, an armed and never-active replica can still commit a
  write exactly when one that read no fence is in flight, or its holder ID is empty and the row has not been acquired
  yet (an armed fence has generation 0, as has the fresh row, whose holder is the empty string).
  `Fencing.StandbysFencedIff`: a replica that takes its handle before it begins any write commits nothing in any run,
  exactly when its holder ID is not empty. `Fencing.RacingWrite` and `Fencing.EmptyHolderWrites` are the failing runs.
- **Giving the lock up in time.** The documentation says a holder stops before its lease can run out. The deadline is
  only looked at after a failed attempt, an attempt may take a whole interval, and after an acquisition the ticker
  starts only once the acquiring transaction has returned. `Renewal.InTimeIff`: the promise holds for every way of
  failing exactly when two intervals fit between the ticker's start and the end of the lease and the interval divides
  the time between them. `Renewal.DefaultsMiss`: the shipped 15 s and 5 s miss it by 1 s after an acquisition that took
  1 s; `Renewal.DefaultsIff` says for which latencies they keep it. The server passes a third of the lease, rounded
  down (`cmd/ubixvault/main.go:249`); `Renewal.TenSecondsMiss`: a lease of 10 s misses it after a renewal too.
  `Renewal.Lateness` bounds the delay.
- **A rekey whose configuration write fails.** The new shares are returned as the only way in, but the stored threshold
  is still the old one. `Reopening.ReopensIff`: they can reopen the vault exactly when some choice of that many of them
  combines to the new master key. `Reopening.AlwaysReopensIff`: they can for every draw exactly when the old threshold
  lies between the new threshold and the number of new shares.
- **Old shares after a rekey.** They are meant to stop working. `Reopening.ReopensIff` covers them too.
  `Reopening.AlwaysStaleIff`: under another master key they are refused for every draw exactly when the new threshold is
  not lower than theirs; `Reopening.StaleExample` has the draws of a lowered threshold with which they still open the
  vault. `Reopening.AlwaysRefusedIff`: for every draw, the old master key drawn again included, they are refused only
  when more are asked for than there were.
- **Pruning join tokens.** A mint deletes records that expired more than 24 hours before its own clock.
  `JoinTokens.RedeemIff`: a burn answers as it would without pruning, unless its record was pruned; then it answers
  that the token is unknown. `JoinTokens.PruningIsInvisible`: no success is lost while clocks stay within 24 hours,
  though a failure may then name another reason. The subtraction of 24 hours wraps in 64 bits and is modelled so.
- **Creating a child token.** A child is meant to be indexed or not stored. `TokenTree.Store.CreateChild`: it is stored
  and unindexed exactly when writing the record succeeds and both writing the index entry and removing the record
  again fail. `TokenTree.StraySurvives`: revoking the parent, or anyone above it, then leaves the child behind.
- **Creating a child during a revocation.** The token store has no lock. `Races.RemovedIff`: however creations interleave
  with it, a finished revocation has removed exactly the root and every child indexed before its parent's children were
  listed, the parent itself having been reached so. `Races.RacingChildSurvives` is a child that outlives its parent;
  `Races.SettledTreeGoes`: a tree that was complete when the root's children were listed goes entirely.
- **Initializing.** `Lifecycle.HalfInitialized`: an initialization of a fresh store leaves a keyring without a
  configuration exactly when it fails after the keyring was written: unsealing with it, creating the root token,
  splitting the master key (which `Core.Core.Initialize` ties to the random source) or writing the configuration.
  `Lifecycle.StrandedForever`: no later run of operations repairs that. Initializing again is refused as already done,
  and unsealing as not done.
- **Naming versions.** Comments on soft-deleting say that version 0 means the latest. `Versions.ZeroNamesNothing`: a
  list of zeros changes nothing. `Versions.DeletesCurrentIff`: a soft delete hides the current version exactly when its
  list is empty or names that version by number.

## Model

| member | source | states |
|---|---|---|
| Galois.GfMul | internal/shamir/shamir.go:196-206 | the shift-and-reduce loop computes the field product, for all 65536 pairs of bytes |
| Galois.TimesTwo | internal/shamir/shamir.go:187-206 | multiplying by two is a shift reduced by the AES polynomial, which with the laws below fixes the product |
| Galois.Rijndael | internal/shamir/shamir.go:187-206 | doubling written out in bits, with the reduction polynomial of FIPS 197 |
| Galois.MulCommutes | internal/shamir/shamir.go:196-206 | the product is commutative |
| Galois.MulAssociates | internal/shamir/shamir.go:196-206 | the product is associative |
| Galois.MulDistributes | internal/shamir/shamir.go:193-206 | the product distributes over exclusive or |
| Galois.FrobeniusIdentity | internal/shamir/shamir.go:208-222 | squaring eight times is the identity: every byte satisfies a^256 = a |
| Galois.InverseIsInverse | internal/shamir/shamir.go:208-222 | a^254 is the inverse of every non-zero byte |
| Galois.GfInverse | internal/shamir/shamir.go:212-222 | the square-and-multiply loop returns the inverse, and zero for zero |
| Polynomials.RootCount | internal/shamir/shamir.go:3-6 | a polynomial of n coefficients with n distinct roots is zero |
| Polynomials.Uniqueness | internal/shamir/shamir.go:3-6 | two polynomials of n coefficients that agree at n distinct points are equal |
| Polynomials.LagrangeThrough | internal/shamir/shamir.go:168-185 | the Lagrange polynomial passes through every point it was built from |
| Polynomials.Interpolation | internal/shamir/shamir.go:168-185 | the weighted sum recovers any polynomial of at most as many coefficients as points, everywhere |
| Polynomials.ShortMisses | internal/shamir/shamir.go:168-185 | with one point too few for its degree, a polynomial's constant term is never recovered |
| Shamir.Evaluate | internal/shamir/shamir.go:159-165 | Horner's loop evaluates the polynomial |
| Shamir.Interpolate | internal/shamir/shamir.go:168-185 | the double loop returns the constant term of every polynomial through the points that is short enough |
| Shamir.RandomCoordinates | internal/shamir/shamir.go:119-133 | for all draws the partial shuffle yields n distinct, non-zero coordinates, those the draws name; it fails only with the random source |
| Shamir.EveryArrangement | internal/shamir/shamir.go:117-133 | every choice and order of distinct non-zero coordinates is one that some draws yield |
| Shamir.Split | internal/shamir/shamir.go:37-71 | each error case, and on success byte k of every share is the value at its x-coordinate of the polynomial with constant term secret[k] and the k-th block of drawn coefficients, at the distinct non-zero points drawn |
| Shamir.Coordinates | internal/shamir/shamir.go:90-104 | the x-coordinates of the shares, refused exactly when one is zero or repeated |
| Shamir.Combine | internal/shamir/shamir.go:77-115 | equals the interpolation specification, error cases included |
| Shamir.CombineErrors | internal/shamir/shamir.go:77-104 | exactly when it refuses and why, in terms of the bytes given |
| Shamir.CombineRecovers | internal/shamir/shamir.go:77-115 | any threshold or more shares of one sharing, in any order, combine to exactly the constant terms |
| Shamir.RoundTrip | internal/shamir/shamir.go:37-115 | Split then Combine of any threshold or more distinct shares, in any order, is the identity, for all draws |
| Shamir.SharesRevealNothing | internal/shamir/shamir.go:3-6 | threshold - 1 shares fit every candidate secret, each through exactly one choice of random coefficients |
| Shamir.OneDrawFits | internal/shamir/shamir.go:61-68 | secrecy over the draws of Split: threshold - 1 shares and any candidate secret fit exactly one draw of one coefficient block per byte |
| Fencing.StepInv | internal/storage/mysql_lock.go:64-276 | every statement of every replica keeps the protocol's invariant (row, fences, open transactions, row locks) |
| Fencing.RunInv | internal/storage/mysql_lock.go:31-276 | so does every interleaving |
| Fencing.ProtocolIsAtomic | internal/storage/mysql_lock.go:31-276 | with holder IDs that are not empty, what any interleaving commits is a history of one atomic lease |
| Fencing.ProtocolIsAtomicIff | internal/storage/mysql_lock.go:31-276 | and for all interleavings exactly then |
| Fencing.GenerationsOrdered | internal/storage/mysql_lock.go:167-197 | generations never decrease and every acquisition raises them |
| Fencing.NoStaleFact | internal/storage/mysql_lock.go:64-94 | no older generation's write commits after a newer acquisition, and no generation is acquired twice |
| Fencing.LeaseOrigin | internal/storage/mysql_lock.go:167-214 | a held lease goes back to its holder's acquisition with nothing of another generation since |
| Fencing.CommitIsExclusive | internal/storage/mysql_lock.go:64-94 | a fenced write follows its own replica's acquisition, and nobody else acquired, released or wrote in between |
| Fencing.LeaseTerms | internal/storage/mysql_lock.go:220-276 | the expiry in force is the one last written by an acquisition or renewal; a freed lease was released |
| Fencing.TakeoverNeedsReleaseOrExpiry | internal/storage/mysql_lock.go:167-197 | a takeover needs a release, or the database clock past the expiry last written |
| LeaseProgress.FreeOrLapsedIsTaken | internal/storage/mysql_lock.go:167-197 | a free or lapsed row that nobody has locked is taken by whoever asks, at the next generation and for one lease from the database's clock |
| LeaseProgress.HeldIsNotTaken | internal/storage/mysql_lock.go:167-197 | a row held by an unexpired lease is not |
| LeaseProgress.CheckPassesIff | internal/storage/mysql_lock.go:77-90 | a fenced write's check passes exactly when the row names its holder and generation |
| LeaseProgress.HolderCommits | internal/storage/mysql_lock.go:64-94 | after an acknowledged acquisition and hold, with anything but an acquisition or release in between, the replica's next write commits under the generation acquired |
| LeaseProgress.ActiveCommits | internal/storage/mysql_lock.go:64-94 | and so it does with other replicas' statements between its begin, check and commit |
| LeaseProgress.RenewalExtends | internal/storage/mysql_lock.go:220-245 | the holder's renewal moves the expiry to one lease from the database's clock |
| LeaseProgress.ReleaseHandsOver | internal/storage/mysql_lock.go:256-276 | its release frees the row, and the next replica to ask takes it at once |
| Fencing.ArmedStaysFenced | internal/storage/mysql_lock.go:31-52 | a replica that has a lock handle and no older write in flight never writes unfenced again |
| Fencing.StandbyMayWriteIff | internal/storage/mysql_lock.go:26-94 | wherever a run stands, an armed and never-active replica can still commit a write, fenced or not, exactly when an unfenced one is in flight or an empty holder ID matches the unacquired row |
| Fencing.StandbysFencedIff | internal/storage/mysql_lock.go:26-94 | a replica that takes its handle before it begins a write commits nothing, fenced or not, in any run in which it is never active, exactly when its holder ID is not empty |
| Fencing.RacingWrite | internal/storage/mysql_lock.go:31-76 | the run in which a write begun before the handle was taken commits after another replica became active |
| Fencing.EmptyHolderWrites | internal/storage/mysql_lock.go:34-90 | the run in which a standby with an empty holder ID commits a write |
| Fencing.GroupAgrees | internal/storage/storagetest/ha.go:16-175 | with holder IDs that are not empty, the in-memory reference group allows a write exactly to the replica the lease names |
| Fencing.GroupAgreesIff | internal/storage/storagetest/ha.go:49-55 | and after every history exactly then: the group does not notice a release by an empty holder ID |
| Renewal.Renew | internal/storage/mysql_lock.go:220-253 | the renewal loop gives up at the first failed attempt that ends past the deadline, wherever the ticker's period began |
| Renewal.InTimeIff | internal/storage/ha.go:58-61 | giving up before the lease runs out, for every way of failing, exactly when two intervals fit between the ticker's start and the end of the lease and the interval divides the time between them |
| Renewal.Lateness | internal/storage/mysql_lock.go:216-253 | late by less than an interval, or given up within two intervals of a ticker that started too late for that |
| Renewal.DefaultsMiss | internal/storage/mysql_lock.go:143-147 | the shipped timing, an acquisition of 1 s, a failure and a timeout: given up at 16 s of a 15 s lease |
| Renewal.DefaultsIff | internal/storage/ha.go:67-72 | the shipped timing keeps the promise exactly for acquisitions that took no time or 5 s |
| Renewal.TenSecondsMiss | cmd/ubixvault/main.go:247-250 | a 10 s lease renewed every third of it misses the promise after a renewal too |
| Renewal.NoIntervalIsSafe | internal/storage/mysql_lock.go:143-147 | no interval keeps it for every acquisition |
| Keys.Utf8SplitsAtSlash | internal/storage/storage.go:81-91 | a key is valid UTF-8 exactly when the parts around any slash are |
| Utf8.ValidIff | internal/storage/storage.go:81-91 | the byte test accepts exactly the encodings of Unicode scalar values, as RFC 3629 has them |
| Keys.ValidKeyIff | internal/storage/storage.go:69-91 | a key is valid exactly when it is valid UTF-8 and no part between slashes is empty, "." or ".." |
| Keys.DotsRefused | internal/storage/storage.go:77-91 | no key holds "." or ".." between slashes, wherever it stands |
| Keys.PrefixIff | internal/storage/storage.go:93-104 | a prefix is valid exactly when it is empty or a name put behind it makes a valid key |
| Keys.SegmentsConcat | internal/storage/storage.go:81-91 | the segments of a joined key are those of its parts |
| Keys.ParentIsValid | internal/storage/storage.go:95-104 | every directory above a valid key is itself well-formed |
| Keys.UnderChild | internal/storage/storage.go:144-156 | a key is below a directory child exactly when that child is its child under the prefix |
| Keys.IsLeafChild | internal/storage/storage.go:144-156 | a leaf child stands for exactly one key |
| Keys.SubtreeIsValid | internal/storage/storage.go:95-136 | a directory child of a valid key extends the prefix to a valid one |
| Keys.ListingUnique | internal/storage/storage.go:51-78 | a set of names has only one sorted, duplicate-free listing |
| Listing.MemoryList | internal/storage/memory.go:65-85 | the map scan answers with the sorted children of the prefix, or refuses an invalid prefix |
| Listing.Dedupe | internal/storage/raft/kv.go:73-82 | in-place removal of adjacent duplicates keeps the elements of a sorted array, each once, in order |
| Listing.CursorList | internal/storage/raft/kv.go:55-71 | the ordered cursor with adjacent skip, sort and dedupe gives the same answer |
| Listing.PrefixSuccessor | internal/storage/mysql.go:312-321 | the in-place byte edit computes the upper bound used below, none when all bytes are 0xFF |
| Listing.RangeIsPrefix | internal/storage/mysql.go:264-321 | the half-open range holds exactly the keys with the prefix, the unbounded case included |
| Listing.RangeList | internal/storage/mysql.go:264-307 | the range scan gives the same answer |
| Listing.AnswersAgree | internal/storage/storage.go:51-78 | any two answers to the same listing are equal, so the three backends agree on every key set and prefix |
| Storage.Backend.Get | internal/storage/memory.go:24-37 | the stored entry, none, or a refused key |
| Storage.Backend.Put | internal/storage/memory.go:40-50 | the new map, or a refused key and no change |
| Storage.Backend.Delete | internal/storage/memory.go:53-62 | the new map, or a refused key and no change |
| Storage.Backend.List | internal/storage/memory.go:65-85 | the sorted children of the prefix |
| Storage.ChildCovers | internal/storage/storage.go:113-156 | the keys below a prefix are split among its children, leaf and directory of one name kept apart |
| Storage.WalkUnder | internal/storage/storage.go:113-136 | the recursive walk visits each entry below the prefix once and no other, until the callback refuses |
| Storage.Walk | internal/storage/storage.go:109-136 | the walk terminates and visits every entry of any store of valid keys exactly once; it stops short exactly when the callback takes fewer entries than there are |
| Storage.Write | internal/snapshot/snapshot.go:30-46 | succeeds exactly when header, entries and flush are taken; the snapshot then holds the header and each entry once |
| Storage.Restore | internal/snapshot/snapshot.go:51-74 | puts the lines in order up to the first refused one |
| Storage.RestoredIff | internal/snapshot/snapshot.go:51-74 | a restore succeeds exactly when every line decodes to an entry with a valid key |
| Storage.RestoreStops | internal/snapshot/snapshot.go:61-73 | at the first that does not it stops with what the lines before it wrote |
| Storage.LastLineWins | internal/snapshot/snapshot.go:48-50 | a line overwrites what was stored at its key |
| Storage.SnapshotRoundTrip | internal/snapshot/snapshot.go:30-74 | restoring what was written into an empty backend yields the same map |
| Storage.DeleteTree | internal/cubbyhole/cubbyhole.go:142-159 | removes exactly the keys below the prefix, for every store of valid keys |
| Storage.ScopesDisjoint | internal/cubbyhole/cubbyhole.go:50-55 | the scopes of two tokens share no key |
| Storage.ScopeHolds | internal/cubbyhole/cubbyhole.go:50-60 | a scope holds exactly the paths below the token's own directory, and is a prefix storage accepts |
| Storage.Destroy | internal/cubbyhole/cubbyhole.go:133-138 | removes exactly one token's scope |
| JoinTokens.DecodeEncode | internal/storage/raft/jointoken.go:37-53 | a record decodes to what was encoded, for all states and 64-bit expiries |
| JoinTokens.DecodeIff | internal/storage/raft/jointoken.go:45-53 | a record is exactly nine bytes |
| JoinTokens.EncodedBytes | internal/storage/raft/jointoken.go:37-43 | the state comes first, the expiry's least significant byte last |
| JoinTokens.RedeemedOnce | internal/storage/raft/fsm.go:84-117 | in every well-used log at most one burn of a token takes effect |
| JoinTokens.RedeemedInTime | internal/storage/raft/fsm.go:104-117 | and only after its mint, at or before the expiry minted |
| JoinTokens.RedeemIff | internal/storage/raft/fsm.go:84-117 | a burn answers as it would without pruning, unless the record was pruned before: then that the token is unknown |
| JoinTokens.BurnAnswers | internal/storage/raft/fsm.go:104-117 | what a burn answers, read off the log: unknown if never minted or pruned since, used if redeemed before, expired if its clock is past the expiry minted, otherwise done |
| JoinTokens.PruningIsInvisible | internal/storage/raft/fsm.go:85-103 | while no burn's clock is more than 24 hours behind an earlier mint's, pruning turns no burn from success to failure or back; at most it makes a failed one fail as unknown |
| JoinTokens.PlainKeys | internal/storage/raft/fsm.go:118-125 | outside the token prefix the state holds, for each key, the last put that no delete follows |
| Fsm.Prune | internal/storage/raft/fsm.go:85-103 | the cursor loop removes exactly the stale token records |
| Fsm.Machine.Apply | internal/storage/raft/fsm.go:67-135 | one entry: skipped, applied in one transaction with its answer, or failed and remembered as failed |
| Fsm.Machine.Restore | internal/storage/raft/fsm.go:152-167 | all of the snapshot with the replay guard cleared, or nothing |
| Fsm.DoInv | internal/storage/raft/fsm.go:67-167 | each delivery, restart or installed snapshot keeps the stored state at a prefix of the log |
| Fsm.AnswersOnce | internal/storage/raft/fsm.go:67-135 | an entry is skipped exactly when it is already reflected, and otherwise answers as in one uninterrupted run |
| Fsm.RunInv | internal/storage/raft/fsm.go:67-167 | the invariant over every schedule |
| Fsm.ReplayConverges | internal/storage/raft/fsm.go:67-167 | after any schedule of crashes, replays, I/O failures and restored snapshots the state is that of a prefix applied once, and of the whole log once all of it was delivered |
| Fsm.LastWriterSurvives | internal/storage/raft/fsm.go:67-167 | so after any schedule every plain key holds what its last writer among the reflected entries put, and is absent if that was a delete |
| Fsm.FailureStops | internal/storage/raft/fsm.go:57-82 | an unreadable entry or a failed transaction changes no key and stops the node until it restarts |
| Tokens.RenewedKeepsCeiling | internal/token/token.go:335-356 | a renewal keeps and records the ceiling and stays below it |
| Tokens.ExpiredIff | internal/token/token.go:86-91 | a token is expired exactly after its expiry, and one without never |
| Tokens.MintedTimes | internal/token/token.go:283-306 | the exact expiry and ceiling of a new token, with and without a bound |
| Tokens.MaxExpiryTimes | internal/token/token.go:136-152 | the ceiling of a record, stored or reconstructed |
| Tokens.ChildLives | internal/token/token.go:184-205 | a child with a positive ttl lives exactly that long, if its parent's ceiling allows |
| Tokens.RenewalLives | internal/token/token.go:335-356 | a renewed token lives exactly ttl longer, or up to its ceiling |
| Tokens.RunInv | internal/token/token.go:144-356 | every run of creations and renewals keeps the ceilings' invariant |
| Tokens.CeilingIsFixed | internal/token/token.go:144-152 | over every run a token's ceiling never changes and no expiry passes it |
| Tokens.AncestorsBound | internal/token/token.go:189-205 | over every run neither a token's ceiling nor its expiry passes the ceiling of any ancestor |
| TokenTree.Store.CreateChild | internal/token/token.go:189-205 | the outcome for every pattern of failures: stored and indexed, neither, or stored and unindexed exactly when the record is written and both the index write and the removal fail |
| TokenTree.TreeIsLinked | internal/token/token.go:198-203 | the tree the other contracts speak of links a child to its parent exactly when it is indexed |
| TokenTree.StraySurvives | internal/token/token.go:198-203 | revoking its parent or anyone above leaves an unindexed child behind |
| TokenTree.Store.Renew | internal/token/token.go:335-356 | without faults a stored token is renewed exactly when it has no expiry or one not before the lookup, and nothing else changes |
| TokenTree.Store.RevokeTree | internal/token/token.go:434-485 | success deletes exactly the tree and counts it; any failure leaves the deleted part cleaned up and without survivors below it; without faults it fails exactly on a tree deeper than 64 |
| TokenTree.Store.RevokeChildren | internal/token/token.go:438-466 | the loop over indexed children: all their trees gone, or stopped with nothing orphaned |
| TokenTree.Store.RevokeSelf | internal/token/token.go:467-485 | cleanup before the record goes |
| TokenTree.NoOrphans | internal/token/token.go:419-485 | at every point of a revocation, also where a failure or crash stopped it, no deleted token has a surviving descendant and each was cleaned up |
| TokenTree.WholeTreeGone | internal/token/token.go:434-485 | a root gone with its children means the whole tree is gone |
| TokenTree.SiblingsDisjoint | internal/token/token.go:434-485 | the trees of two siblings share no token |
| TokenTree.AcyclicGrows | internal/token/token.go:189-205 | a child with a fresh ID closes no cycle, so the trees stay trees |
| Races.RemovedIff | internal/token/token.go:189-205 | whatever children are stored and indexed during it, a finished revocation has removed exactly the root and every child indexed before its visited parent's children were listed |
| Races.SettledTreeGoes | internal/token/token.go:434-485 | a tree complete when the root's children were listed goes entirely |
| Races.RacingChildSurvives | internal/token/token.go:440-466 | the run in which a child created after the listing outlives its parent |
| TokenTree.Store.SweepExpired | internal/token/token.go:367-403 | removes only expired tokens and their descendants, counted once each, although names were read before; a clean unlimited sweep removes all of them |
| TokenTree.DoomedIff | internal/token/token.go:358-403 | the tokens a sweep is for: those with an expiry before now, and all below them |
| TokenTree.SweepLeavesNone | internal/token/token.go:358-403 | after a full sweep every token left, and every ancestor it had, has no expiry or one that is now or later |
| Barrier.Barrier.Initialize | internal/barrier/barrier.go:77-107 | a keyring is written once, under a master key of the right size |
| Barrier.Barrier.Unseal | internal/barrier/barrier.go:187-223 | holds the keyring's barrier key exactly when the master key opens it |
| Barrier.Barrier.Rekey | internal/barrier/barrier.go:147-181 | succeeds exactly for a master key that verifies, and then only rewraps the same barrier key |
| Barrier.Barrier.Get | internal/barrier/barrier.go:244-263 | reserved and malformed paths, sealed, absent, forged and genuine entries |
| Barrier.Barrier.Put | internal/barrier/barrier.go:266-281 | what was written reads back, and no other path's reading changes |
| Barrier.Barrier.Delete | internal/barrier/barrier.go:284-294 | the path reads as absent, and no other path's reading changes |
| Barrier.ReadIff | internal/barrier/barrier.go:244-263 | a reading yields a value exactly when the path may be read, the barrier is unsealed and the entry was sealed under its key at that path |
| Barrier.PathIsBound | internal/barrier/barrier.go:344-379 | a ciphertext moved to another path does not open there |
| Core.Core.Initialize | internal/core/core.go:244-358 | refines the initialization step; on a legal configuration and a fresh store it answers which step failed, or returns a sharing of the master key the keyring is under and leaves the vault sealed |
| Core.Core.Unseal | internal/core/core.go:405-454 | refines the unseal step, error cases and discarded progress included |
| Core.Core.Seal | internal/core/core.go:745-756 | forgets the barrier key and the progress, and nothing else |
| Core.Core.RekeyInit | internal/core/core.go:583-615 | starts an attempt only on an unsealed vault with a legal new configuration |
| Core.Core.RekeyUpdate | internal/core/core.go:622-712 | refines the rekey step: nothing is written before the new key is split, and a failed configuration write keeps the old threshold |
| Lifecycle.InitRefused | internal/core/core.go:253-282 | an illegal configuration, then a store that has a keyring, is refused without a change |
| Lifecycle.RootReadsBack | internal/core/core.go:301-305 | after a complete initialization the root token reads back |
| Lifecycle.UnsealAnswers | internal/core/core.go:405-454 | for any bytes: a full set of shares opens the vault exactly if it combines to the key the keyring is sealed under; otherwise the progress is discarded and the answer says why |
| Lifecycle.UnsealedAnswers | internal/core/core.go:424-426 | an unsealed vault answers so and changes nothing |
| Lifecycle.NoConfigAnswers | internal/core/core.go:413-422 | without a readable Shamir configuration no share is taken and no rekey begun |
| Lifecycle.BeginAnswers | internal/core/core.go:583-615 | a rekey is begun exactly on an unsealed vault with a legal new configuration, which it records |
| Lifecycle.RekeyAnswers | internal/core/core.go:622-656 | the answers of a rekey call before its shares are complete |
| Lifecycle.RekeyGuarded | internal/core/core.go:658-712 | for any bytes and any vault: a rekey completes exactly if the shares gathered combine to the key the keyring is sealed under and the new key can be split; in every other case the disk does not change |
| Lifecycle.KeyringChangesOnlyIfProved | internal/core/core.go:622-712 | over every run with any bytes the keyring changes only at such a call |
| Lifecycle.BegunIsConfigured | internal/core/core.go:583-712 | a completed and saved rekey leaves the configuration it was begun with |
| Core.Core.RekeyCancel | internal/core/core.go:715-719 | drops the attempt only |
| Lifecycle.UnsealedIff | internal/core/core.go:405-454 | over every run of issued shares, repeats and seals included, unsealed exactly when the required number of distinct shares was given since the last seal, with the barrier key chosen at initialization |
| Lifecycle.RekeyCompletesIff | internal/core/core.go:622-712 | over every run of rekey calls with current shares, repeats included, the call that completes the rekey is exactly the one that brings the distinct shares to the required number, if the new key can be split |
| Lifecycle.RekeyTakesOver | internal/core/core.go:622-712 | a completed rekey keeps the barrier key and every reading; the new master key verifies and the old one only if drawn again |
| Lifecycle.RekeyThenUnseal | internal/core/core.go:575-712 | after a rekey and a seal, any new threshold of the new shares reads every path as before, and fewer read nothing |
| Reopening.ReopensIff | internal/core/core.go:405-454 | shares of any deal can reopen a sealed vault exactly when some choice of as many as the configuration asks for combines to the keyring's master key |
| Reopening.EnoughCombine | internal/core/core.go:428-454 | asked for at least their threshold, shares yield only their own master key, and do so exactly when there are enough |
| Reopening.ShortDeal | internal/core/core.go:695-700 | for every smaller number there is a deal of which no such choice yields its master key |
| Reopening.AlwaysReopensIff | internal/core/core.go:695-700 | after a failed configuration write the new shares can reopen the vault for every draw exactly when the old threshold lies between the new one and their number |
| Reopening.AlwaysStaleIff | internal/core/core.go:617-621 | under another master key old shares are refused for every draw exactly when the new threshold is not below theirs |
| Reopening.AlwaysRefusedIff | internal/core/core.go:617-621 | for every draw, the same master key included, exactly when more are asked for than there were |
| Reopening.StaleExample | internal/core/core.go:617-621 | the draws of a lowered threshold with which old shares still open the vault |
| Lifecycle.DataSurvives | internal/core/core.go:244-756 | over every run of initializations, unseals with any bytes, seals, rekeys, writes and deletes, the vault is only ever unsealed with the one barrier key and each path reads as the last change accepted for it left it |
| Lifecycle.HalfInitialized | internal/core/core.go:291-356 | initializing a fresh store leaves a keyring without a configuration exactly when a step after the keyring fails: unseal, root token, split or configuration write |
| Lifecycle.StrandedStep | internal/core/core.go:275-282 | from there initializing is refused as already done and unsealing as not done |
| Lifecycle.StrandedForever | internal/core/core.go:244-454 | and so over every later run: sealed, with storage unchanged |
| Versions.LocateData | internal/kv/kv.go:85-88 | a data key determines its path and version, so keys of different secrets never meet |
| Versions.KeysApart | internal/kv/kv.go:85-88 | the same for all metadata and data keys together |
| Versions.DataKeyIsValid | internal/kv/kv.go:90-99 | checking the metadata key makes every version's data key valid |
| KV.Engine.Write | internal/kv/kv.go:102-139 | the store refines the history with the write added; the version number is its place |
| KV.Engine.EnforceMaxVersions | internal/kv/kv.go:283-295 | the loop removes exactly the versions below the window, from the metadata and from storage |
| KV.Engine.Read | internal/kv/kv.go:141-176 | answers what the history of the path says, each error case included |
| KV.Engine.ValidPathIff | internal/kv/kv.go:90-99 | a path is accepted exactly when it is not empty and its metadata key is valid |
| KV.Engine.Delete | internal/kv/kv.go:178-186 | the store refines the history with those versions soft-deleted |
| KV.Engine.Undelete | internal/kv/kv.go:188-195 | the store refines the history with those versions restored |
| KV.Engine.MutateVersions | internal/kv/kv.go:261-281 | the loop both share |
| KV.Engine.Destroy | internal/kv/kv.go:197-222 | the store refines the history with those versions destroyed, their data gone |
| KV.Engine.DeleteMetadata | internal/kv/kv.go:232-250 | no data and no metadata of the path is left, whatever order the versions are removed in |
| Versions.ReadIff | internal/kv/kv.go:3-7 | version v reads x exactly when x was the v-th write since the last removal, v is among the last MaxVersions, and it is neither deleted nor destroyed |
| Versions.CurrentIff | internal/kv/kv.go:141-176 | version 0 reads x exactly when x was the last write and is neither deleted nor destroyed |
| Versions.ReadErrors | internal/kv/kv.go:141-176 | exactly when each error is answered, destroyed before deleted |
| Versions.MarkMeans | internal/kv/kv.go:178-222 | a batch of flags is the set of retained versions it names |
| Versions.ZeroNamesNothing | internal/kv/kv.go:261-281 | version 0 in a list names nothing |
| Versions.DeletesCurrentIff | internal/kv/kv.go:178-186 | a soft delete hides the current version exactly when its list is empty or names it by number |
| Versions.UndeleteRestores | internal/kv/kv.go:178-195 | Undelete takes back exactly what Delete did |
| Versions.Permanent | internal/kv/kv.go:3-7 | until a removal, values never change, destroyed versions stay destroyed and the window only moves forward |
| Versions.PathsIndependent | internal/kv/kv.go:85-88 | operations on other paths leave a path's history alone |
| Groups.AssertedGroups | internal/identity/group.go:246-271 | exactly the joined keys asserted by the entity's own aliases |
| Groups.AssertionKeyInjective | internal/identity/group.go:211-267 | a joined key determines mount type and group name if no mount type holds the separator |
| Groups.Seed | internal/identity/group.go:205-219 | exactly the groups joined directly |
| Groups.Pass | internal/identity/group.go:222-234 | one pass stays sound and either grows or proves the set settled |
| Groups.Applicable | internal/identity/group.go:205-235 | terminates on every graph with exactly the groups that have a chain of child links to one joined directly |
| Groups.PoliciesFor | internal/identity/group.go:176-244 | the policies of exactly the groups that apply, in listing order and with repetitions |
| Groups.CollectedParts | internal/identity/group.go:237-243 | the policies of a list are those of its parts, group by group in order |
| Groups.OrderIrrelevant | internal/identity/group.go:181-235 | which groups apply does not depend on the listing order |
| RateLimit.Limiter.Allow | internal/ratelimit/ratelimit.go:52-74 | refines the charge of one bucket; no other bucket changes |
| RateLimit.Limiter.Sweep | internal/ratelimit/ratelimit.go:76-100 | removes exactly the idle full buckets and counts them |
| RateLimit.SweptIff | internal/ratelimit/ratelimit.go:76-98 | the buckets removed are exactly those last used before now - idle that have refilled to the burst |
| RateLimit.RequestLevels | internal/ratelimit/ratelimit.go:50-74 | a request is admitted exactly when its key's level is at least one, and lowers that level and no other |
| RateLimit.SweepLevels | internal/ratelimit/ratelimit.go:76-98 | sweeping moves no level |
| RateLimit.SweepsAreInvisible | internal/ratelimit/ratelimit.go:76-100 | a run with sweeps anywhere gives the same answers as one never swept |
| RateLimit.WindowBound | internal/ratelimit/ratelimit.go:3-7 | in any window of any run, what a key was admitted and can still spend is at most the burst and what accrued |
| RateLimit.AdmissionBound | internal/ratelimit/ratelimit.go:3-7 | so it is admitted at most burst + rate * length times |
| RateLimit.WaitingRefills | internal/ratelimit/ratelimit.go:62-73 | a key left alone gains rate for each second up to the burst, and is admitted once that makes one |
| RateLimit.NewKeyIsFull | internal/ratelimit/ratelimit.go:57-61 | a new key starts with the burst |
| Promote.Promoter.ReportApplied | internal/storage/raft/promote.go:77-84 | replaces one report |
| Promote.Promoter.Evaluate | internal/storage/raft/promote.go:138-173 | the two loops of an evaluation refine its specification |
| Promote.Promoter.PromoteOnce | internal/storage/raft/promote.go:114-174 | one evaluation, the servers due, and the reports left once accepted voters were recorded, whatever reports came in meanwhile |
| Promote.AcceptedIsDropped | internal/storage/raft/promote.go:120-128 | right after its own voter change an accepted server has no report |
| Promote.OthersKeepReports | internal/storage/raft/promote.go:120-128 | any other server has one exactly when it had one or one came in |
| Promote.DueOnlyIf | internal/storage/raft/promote.go:61-66 | a server is due only if some evaluation at least Stabilization earlier, and every completed one since, found this node leader and it a non-voter with a fresh report within Threshold |
| Promote.DueIf | internal/storage/raft/promote.go:86-88 | conversely a server that qualified all that time, not promoted meanwhile, is due |
| Promote.QualifiesIff | internal/storage/raft/promote.go:146-151 | the evaluation's test is: a report no older than MaxReportAge and at most Threshold behind |

## Left out

- The Raft, bbolt, MySQL and TLS libraries: only an ordered log, atomic transactions and row locks are used of them.
- The Raft lock handle (internal/storage/raft/lock.go): its check and the proposal are separate steps around library state.
- Real cryptography: AES-GCM, SHA-256 and the random source are symbolic.
- Auto-unseal, recovery keys and root-token regeneration: the branches of core.go for a configured seal are not modelled.
- HTTP handlers, CLI, console, metrics, audit log, certificates, request forwarding: plumbing.
- Auth methods, the PKI engine, policy matching and quotas: lookups that would only add easy members.
- The file backend and its name mapping.
- JSON encoding, context cancellation and the key-length limit of 768 bytes.
- Storage faults in the barrier, the core (but for the configuration writes), the versioned secrets and groups: only the token store, the walks and the state machine are modelled with failing operations.
- A failed storage operation is taken to have had no effect.
- Concurrency in the versioned secrets, which have no lock either: two writes to one path that overlap can take the same version number, and one of them is then lost. Reads, writes and flags are modelled one after the other.
- Races.RemovedIff: one revocation at a time, without failures and the depth limit; `TokenTree.Store.RevokeTree` has those, one operation after the other.
- Timestamps of versioned secrets, and listing them.
- Overflow of time values (but for the 24 hours of join tokens) and of the 64-bit generation.
- Renewal.Renew: attempts start on the tick; a goroutine scheduled late starts them later.
- Fencing.ProtocolIsAtomic: takes holder IDs to be non-empty, which `Fencing.ProtocolIsAtomicIff` shows to be needed.
- Fencing.GroupAgrees: takes holder IDs to be non-empty, which `Fencing.GroupAgreesIff` shows to be needed.
- Fencing.TakeoverNeedsReleaseOrExpiry: the database clock is read when a statement takes its lock; one that waited for the lock would use the earlier time of its start, both to compare and to write.
- RateLimit.WindowBound: over real numbers; floating-point rounding is not modelled.
