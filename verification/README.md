# Verified model of xbase

A Dafny 4.11 model of seven components of the xbase game-server framework, with proofs of what they promise over
every input and every run. `dafny verify dfyconfig.toml` checks the whole project.

* **Digits and shortest floats** (`DigitSeq`, `DigitView`, `CheatTable`, `ShiftMath`, `ExactShift`, `MultiPrecision`,
  `DigitWalk`, `FloatFormat`, `FloatBounds`, `Shortest`, `FloatDecimal`). The multi-precision digit buffer is a
  class over an array of 800 digits that is shifted by powers of two and rounded in place. The table behind the left
  shift is proved row by row, the 64-bit arithmetic never overflows, and a shift is exact whenever its value fits the
  buffer, even where intermediate steps are long. On top of it, the three-way digit walk returns a decimal that reads
  back as the float (sections 3.4 and 4.3.1 of IEEE 754-2008), that no shorter decimal does, and that is closest among
  those with as few digits.
* **Fixed-point decimals** (`FixedPoint`, `Rounding`, `DecimalText`, `Strconv`, `IntegerPower`, `TaylorSeries`).
  A coefficient and an exponent denote a rational number, over which comparison, addition, multiplication, division,
  all rounding modes, printing, parsing, integer powers and the exponential are specified.
* **Dispatch** (`Version`, `Registry`, `RoundRobin`, `Rotation`, `Dispatch`). Version order, the newest version of each
  group, the index built from the registered services, and smooth weighted and plain round robin over runs of requests.
* **Wire framing** (`Wire`, `Packet`, `Reassembly`). Packing, unpacking and incremental reassembly of a byte stream.
* **Bookkeeping** (`Sessions`, `NodeLink`). Connection, user and channel indexes; node bindings and wait/done calls.
* **Leased locks** (`RedisLock`, `MemcacheLock`). State machines over a server's keys and clock, for any number of
  lockers and any interleaving of commands.
* **Byte buffers** (`Wire`, `ByteBuffer`, `NoCopy`). A growing writer, the reader that inverts it, and nested no-copy
  buffers as linked objects.

`Powers` and `DigitSeq` hold shared arithmetic, `Optional` the option type.

Where the code departs from what its documentation or tests suggest, the model follows the code and states the exact
boundary:

* Packing bounds the body, unpacking bounds header and body; a body in between packs and is refused
  (`UnpackPacked`, `PackedButRefused`).
* The lock clients' retry limit of m allows m + 2 attempts (`Client.Acquire`, `OneTooMany`).
* A memcached lease shorter than a second never ends, one longer than 30 days has ended at once (`LeaseLength`);
  a renewal that comes between the two steps of a release makes the release fail (`RenewalDefeatsRelease`).
* A Redis renewal of less than a millisecond gives the key away (`RenewalMatchesAcquire`).
* A connection that leaves keeps its channel attributes, so registering it again breaks the channel index
  (`AddConn`, `ComesBack`); a connection that carries none never does.
* An empty buffer mounted in front of the only node of a no-copy buffer hides that node's bytes
  (`BytesExact`, `EmptyBufferHides`, `MountedBehindEmpty`).
* The decimal reader takes a point before the sign, and counts the sign as a place (`PointBeforeSign`).
* Plain round robin shares one counter between all lists of a route, so requests for one list make another uneven, up
  to giving the same endpoint for ever (`EvenRequests`, `AlternatingStarves`). A list asked alone is uneven only across a
  wrap of the counter (`EvenAlone`).
* In the shortest-float walk, leaving the loop for lack of digits cannot happen, and neither can the conversion's
  branch for 19 or more digits: the model has no such exits, because `FindCut` and `ShortestDigits` prove it.

## Model

| member | source | states |
|---|---|---|
| CheatTable.TableCorrect | utils/decimal/decimal-go.go:174-250 | every one of the 61 rows holds the digits of 5^k and the digit count of 2^k |
| MultiPrecision.PrefixIsLessThan | utils/decimal/decimal-go.go:253-263 | the digit comparison decides exactly whether 0.b is below 0.s |
| ShiftMath.PredictedLength | utils/decimal/decimal-go.go:266-276 | the table entry minus the prefix test is the exact number of new digits of the product with 2^k |
| ShiftMath.CarryFits | utils/decimal/decimal-go.go:278-302 | the carry of a left shift stays below 10 * 2^k, so within 64 bits |
| MultiPrecision.DigitBuffer.LeftShift | utils/decimal/decimal-go.go:266-309 | the buffer becomes the exact product with 2^k, cut to 800 digits, with trunc telling whether a nonzero digit was lost |
| ShiftMath.TwosGrow | utils/decimal/decimal-go.go:136-150 | each step of the tail of a right shift adds a factor of two to the remainder modulo 2^k, so the loop ends |
| ShiftMath.DivisionStep | utils/decimal/decimal-go.go:124-134 | one step of the long division emits a digit 0..9, keeps the remainder below 10 * 2^k and the quotient equation |
| MultiPrecision.DigitBuffer.RightShift | utils/decimal/decimal-go.go:106-157 | the buffer becomes the exact quotient by 2^k, cut to 800 digits |
| MultiPrecision.DigitBuffer.Shift | utils/decimal/decimal-go.go:312-329 | a shift by any integer composes steps of at most 60 bits |
| ExactShift.ShiftExact | utils/decimal/decimal-go.go:312-329 | if the value times 2^k fits 800 digits, the composed shift gives exactly that value and loses nothing on the way |
| MultiPrecision.DigitBuffer.Assign | utils/decimal/decimal-go.go:77-98 | the buffer holds exactly the machine word, without trailing zeros |
| MultiPrecision.DigitBuffer.Trim | utils/decimal/decimal-go.go:67-74 | trailing zeros go, the value stays, an empty buffer has its point at 0 |
| MultiPrecision.DigitBuffer.ShouldRoundUp | utils/decimal/decimal-go.go:332-348 | true exactly past the half, or at it when digits were lost or the kept digit is odd |
| MultiPrecision.DigitBuffer.Round | utils/decimal/decimal-go.go:354-363 | leaves the neighbour with n digits that the tie rule picks |
| MultiPrecision.DigitBuffer.RoundDown | utils/decimal/decimal-go.go:366-372 | leaves the neighbour below with n digits |
| MultiPrecision.DigitBuffer.RoundUp | utils/decimal/decimal-go.go:375-396 | leaves the neighbour above with n digits, also when all of them are nines |
| FloatFormat.Neighbours | utils/decimal/rounding.go:70-108 | no float lies strictly between a float and the neighbours the algorithm uses |
| FloatFormat.IntervalReadsBack | utils/decimal/rounding.go:70-116 | a number lies between the midpoints, ends allowed for even significands, exactly when it reads back as the float |
| FloatBounds.UnitBeatsHalfGap | utils/decimal/rounding.go:64-68 | the integer test with 332/100 compares a power of ten with the half gap, also for negative places |
| Shortest.EarlyExit | utils/decimal/rounding.go:64-68 | on the early exit no number with fewer digits lies in the rounding interval |
| Shortest.WalkStep | utils/decimal/rounding.go:144-218 | at each place, okdown and okup say exactly whether the cut, or one unit more, lies in the interval |
| Shortest.Decided | utils/decimal/rounding.go:179-236 | at the first place with an allowed cut, no number of the interval ends further left |
| Shortest.FindCut | utils/decimal/rounding.go:144-218 | the walk over three digit strings finds the first allowed cut before the digits of d run out |
| Shortest.RoundShortest | utils/decimal/rounding.go:28-238 | the result reads back as the float, no number with fewer digits does, and none with as few digits, wherever it ends, is closer, nor any ending at the same place; of two equally close ones ending there that read back, it is the even one |
| Shortest.ClosestOfItsLength | utils/decimal/rounding.go:179-236 | the closest number at the first allowed place is the closest of all numbers with as few digits that read back |
| FloatDecimal.AtMostSeventeen | utils/decimal/decimal.go:338-356 | the shortest form has at most 17 digits for binary64 and 9 for binary32 |
| FloatDecimal.FromBits | utils/decimal/decimal.go:313-357 | for every sign, exponent field and fraction of a finite float, from the word they make up: its sign, and a magnitude that reads back as the float they denote, with fewest digits, closest among those with as few digits and among those ending at the same place, ties to even; zero gives zero |
| FloatDecimal.EveryWord | utils/decimal/decimal.go:317-329 | every word of the format's length is made up of a sign, an exponent field and a fraction, so the contract covers all of them |
| FloatDecimal.StandardFormats | utils/decimal/rounding.go:18-25 | the two formats have the precision, bias and length of binary32 and binary64 |
| FixedPoint.CmpMeaning | utils/decimal/decimal.go:1280-1291 | comparing decimals compares the numbers they denote |
| FixedPoint.AddExact | utils/decimal/decimal.go:509-528 | sum and difference are exact |
| FixedPoint.MulExact | utils/decimal/decimal.go:541-557 | the product is exact |
| FixedPoint.QuoRemContract | utils/decimal/decimal.go:585-622 | d = e * q + r with q a multiple of 10^-precision, r below one unit of e and signed like d, for either sign of precision |
| FixedPoint.DivRoundNearest | utils/decimal/decimal.go:628-650 | the quotient is the nearest multiple of 10^-precision, ties away from zero |
| Rounding.RoundNearest | utils/decimal/decimal.go:1504-1526 | rounding through one guard digit still gives the nearest multiple, ties away from zero |
| Rounding.RoundBankNearest | utils/decimal/decimal.go:1639-1654 | bank rounding gives the nearest multiple, ties to the even coefficient |
| Rounding.DirectedOptimal | utils/decimal/decimal.go:1536-1623 | the four directed modes give the tightest bound on their side |
| Rounding.FloorCeilOptimal | utils/decimal/decimal.go:1693-1727 | floor and ceil are the integers next to the number |
| Rounding.Idempotent | utils/decimal/decimal.go:1504-1654 | rounding twice changes nothing, in every mode |
| DecimalText.String | utils/decimal/decimal.go:1883-1926 | the printer writes a minus sign if negative, the whole digits and, if there are any, a point and the fraction digits, both without surplus zeros |
| DecimalText.NewFromString | utils/decimal/decimal.go:170-239 | a text is read, as a given decimal, exactly when it is an optionally signed digit string with at most one point in it and an optional exponent, and both exponents fit 32 bits; the digits are the coefficient, the characters behind the point count as places |
| DecimalText.PointBeforeSign | utils/decimal/decimal.go:192-212 | a point before the sign is read too, and the sign then counts as a place |
| DecimalText.CanonicalUnique | utils/decimal/decimal.go:1883-1926 | a number has only one digit form without surplus zeros |
| DecimalText.PointExactly | utils/decimal/decimal.go:1883-1926 | the printed text has a point exactly if the number is no integer, a minus sign exactly if it is negative, and never a plus sign |
| DecimalText.RoundTrip | utils/decimal/decimal.go:170-239 | reading a printed decimal gives the same number, for every coefficient and every exponent the reader admits |
| DecimalText.CanonicalText | utils/decimal/decimal.go:1280-1291 | two decimals print alike exactly when they compare equal |
| IntegerPower.PowBigIntWithPrecision | utils/decimal/decimal.go:897-927 | square-and-multiply is the exact power; a negative exponent gives the correctly rounded reciprocal |
| TaylorSeries.FactorialCache.Next | utils/decimal/decimal.go:1068-1078 | the shared cache keeps entry j equal to (j+1)! and only grows |
| TaylorSeries.TermsVanish | utils/decimal/decimal.go:1056-1079 | from a place on that the argument and the precision fix, eight times the argument or four places a digit, every term is below half a unit, so the loop ends there at the latest |
| TaylorSeries.SmallTermIsLate | utils/decimal/decimal.go:1061-1064 | a term below one half comes after twice the argument, so the loop cannot stop while terms still grow |
| TaylorSeries.Tail | utils/decimal/decimal.go:1056-1079 | what is left of the series after such a term is at most that term |
| TaylorSeries.FactorialCache.Sum | utils/decimal/decimal.go:1056-1079 | the result adds exactly the terms up to the first that rounds to less than epsilon, each rounded to its nearest unit; that first term comes no later than the fixed place; so the sum is within that many half-units of the exact partial sum |
| TaylorSeries.FactorialCache.ExpTaylor | utils/decimal/decimal.go:1033-1087 | the result is that sum, inverted for a negative argument and rounded; it is within a tolerance of every later approximation of the exponential, and the tolerance is at most a number that the argument and the precision fix |
| Version.CompareVersion | registry/version.go:9-48 | compares zero-padded numeric components, first difference deciding |
| Version.ComponentIs | registry/version.go:109-117 | a component counts as the 64-bit integer it shows between spaces, and as zero if it shows none |
| Version.DottedOrder | registry/version.go:9-48 | numbers joined by dots compare as the sequences of numbers they spell, the first difference deciding and missing ones being zero |
| Version.OrderIsTransitive | registry/version.go:9-48 | "at least as new" is transitive |
| Version.OrderIsAntisymmetric | registry/version.go:9-48 | the order is total, and versions are equal exactly when all padded components are |
| Version.SplitPieces | registry/version.go:22-23 | cutting at the dots loses nothing: the pieces have no dot and join back to the version |
| Version.MaxVersion | registry/version.go:51-64 | a member that no member exceeds, the first of its rank |
| Registry.MaxVersionForGame | registry/version.go:67-81 | each populated game, and no other, gets a version no member exceeds |
| Registry.MaxVersionByKindAlias | registry/version.go:84-98 | the same per kind and alias |
| Registry.MaxVersionForGameByServiceStatus | registry/service_status.go:32-53 | the same per game and release status, in a nested map without empty groups |
| Registry.LatestIsNewest | registry/version.go:101-107 | being at least as new as the recorded version is being newest in the group |
| Registry.StatusIsText | registry/service_status.go:13-30 | an instance is test or gray exactly if its metadata says so, and normal otherwise |
| RoundRobin.PickMeans | internal/dispatcher/gameRoute.go:104-117 | everybody earns its weight, the first of those furthest ahead is chosen, and it pays the total |
| RoundRobin.PickKeepsBalance | internal/dispatcher/gameRoute.go:94-121 | a pick keeps the current weights summing to zero and each above minus the total |
| RoundRobin.Ledger | internal/dispatcher/gameRoute.go:94-121 | after n picks a current weight is n times its weight minus the total times its picks |
| RoundRobin.ExactFairness | internal/dispatcher/gameRoute.go:94-121 | as many picks as the weights sum to choose every endpoint exactly weight times and return to zero |
| RoundRobin.FairUnderInterleaving | internal/dispatcher/gameRoute.go:94-121 | the same for one bucket whatever picks of other buckets come in between |
| RoundRobin.BalancedUnderInterleaving | internal/dispatcher/gameRoute.go:94-121 | the balance of a bucket holds after any schedule |
| Dispatch.PickFrom | internal/dispatcher/gameRoute.go:104-117 | the loop over a bucket makes exactly one such pick |
| Dispatch.GameRoute.WeightRoundRobinDispatch | internal/dispatcher/gameRoute.go:94-121 | picks from the first non-empty bucket in fallback order and changes no other weight |
| Dispatch.GameRoute.Serve | internal/dispatcher/gameRoute.go:94-121 | over any run of requests for any statuses, what falls on one list is what as many consecutive picks from it alone give, answers and weights |
| Dispatch.FairRequests | internal/dispatcher/gameRoute.go:94-121 | so a list that is asked as often as its weights add up to gives every endpoint exactly weight times, whatever requests fall on other lists |
| Dispatch.GameRoute.RoundRobinDispatch | internal/dispatcher/gameRoute.go:86-92 | the counter all buckets share moves on by one and points into the chosen bucket; an empty choice leaves it alone |
| Rotation.EveryTurnOnce | internal/dispatcher/gameRoute.go:86-92 | as many turns in a row as a bucket has endpoints take each once, if and only if the 64-bit counter does not wrap between them or their number divides 2^64 |
| Dispatch.GameRoute.ServeInTurn | internal/dispatcher/gameRoute.go:86-92 | over any run of requests for any statuses, each answer is where the one counter stands after all requests answered so far |
| Dispatch.EvenRequests | internal/dispatcher/gameRoute.go:86-92 | among as many requests for a bucket as it has endpoints, with any others in between, each endpoint is the answer once, if and only if the counter values they met all differ modulo that number |
| Dispatch.EvenAlone | internal/dispatcher/gameRoute.go:86-92 | with nothing in between, that is so if and only if the counter does not wrap between them or the number divides 2^64 |
| Dispatch.AlternatingStarves | internal/dispatcher/gameRoute.go:86-92 | a bucket of two endpoints asked in turns with another bucket gives the same endpoint for ever |
| Dispatch.GameRoute.DirectDispatch | internal/dispatcher/gameRoute.go:71-77 | in an index of some services, the instance of this game registered last under the identifier, whatever its state, status or version, and none exactly if nothing of that name parses |
| Dispatch.GameRoute.FindServiceEndpoint | internal/dispatcher/gameRoute.go:56-69 | a named instance is found as by direct dispatch and nothing moves; otherwise the policy decides, and only its own state changes |
| Dispatch.GameRoute.BalanceEndpoints | internal/dispatcher/gameRoute.go:123-151 | returns, in order of registration, exactly the listed endpoints that may serve the request, working or busy and of a status up to the one asked for, and that no other such one beats, by higher status or by working where it is busy; any other text asks for normal ones |
| Dispatch.FallbackOrder | registry/service_status.go:55-64 | the fallback order is all classes that may serve, from the highest down |
| Dispatch.GameRoute.AddServiceEndpoint | internal/dispatcher/abstract.go:44-85 | one list grows by the endpoint, by status and state, and only if it may be balanced |
| Dispatch.GameRoute.ListsApart | internal/dispatcher/abstract.go:44-85 | no endpoint is in two lists |
| Dispatch.Balance | internal/dispatcher/dispatcher.go:134-145 | an instance is balanced exactly when its version is maximal in its group among all registered services |
| Dispatch.Dispatcher.ReplaceServices | internal/dispatcher/dispatcher.go:114-178 | the index holds exactly the parseable instances of each game and class, in order, with fresh round-robin state |
| Dispatch.BalancedExactly | internal/dispatcher/gameRoute.go:123-151 | a request is given exactly the members of the first populated class in fallback order |
| Dispatch.MembersAre | internal/dispatcher/dispatcher.go:122-153 | the members are the instances that parse, belong to the game, are eligible and have that status and state |
| Packet.PackMessage | packet/packer.go:181-244 | the first word weighs the length of header and body in the given byte order, the second is zero, the next three are the game, message and sequence number in two's complement; then the body and four zero bytes; refused exactly if the body exceeds the bound or the length 31 bits |
| Packet.PackBuffer | packet/packer.go:93-115 | the same header and the body without more; refused exactly when header and body exceed the bound or 31 bits |
| Packet.UnpackMessage | packet/packer.go:246-315 | a packet is accepted, as a given message, exactly when its first word is the length of header and body and in bounds, and the other words and the body are the message's, each word weighed in the given byte order; it is half exactly when it is shorter than a length in bounds, and invalid exactly when no length in bounds is announced |
| Packet.UnpackPacked | packet/packer.go:246-315 | unpacking a packed message gives it back, whatever follows, exactly when header and body fit the bound |
| Packet.PackedButRefused | packet/packer.go:184-203 | for every bound there is a body that packs and is then refused |
| Packet.HalfPacket | packet/packer.go:251-272 | every proper prefix of a packet is reported as half |
| Reassembly.ReadMessage | packet/packer.go:118-140 | reads one frame, an empty one for length zero, or reports that bytes are missing, and moves past exactly what it read |
| Reassembly.FrameIs | packet/packer.go:118-140 | the length word, weighed in the given byte order, counts the bytes after the word; the frame is the word and those bytes |
| Reassembly.ZeroLength | packet/packer.go:118-140 | four zero bytes are one empty frame, and exactly those four are used up |
| Reassembly.ParseInPieces | network/xgnet/server_conn.go:261-299 | parsing in two pieces with the residual carried over equals parsing at once |
| Reassembly.Conn.TryEnqueue | network/queue.go:15-24 | a frame is queued exactly if there is room by the time the queue is tried, however many frames the receiver has taken; the queue holds the frames not yet taken, in order |
| Reassembly.Conn.Feed | network/xgnet/server_conn.go:261-299 | over any sequence of pieces, queued frames plus residual equal the one-shot parse of the stream; what is queued is never more, and an open connection within the buffer limit is closed only if more frames have come than the queue can hold |
| Reassembly.ReceivedInOrder | network/xgnet/server_conn.go:261-299 | a stream of packed messages cut anywhere unpacks to the original messages in order, with nothing left over |
| Reassembly.ArrivedSoFar | network/xgnet/server_conn.go:261-299 | while the stream is incomplete, the frames so far are the first ones |
| Reassembly.BufferIsNotAFrame | packet/packer.go:93-115 | a packed buffer is never a complete wire frame |
| Sessions.Session.AddConn | session/session.go:48-69 | users stays the inverse of the non-zero uids; channels stays exact exactly when a newcomer carries no channel attribute |
| Sessions.Session.RemConn | session/session.go:72-111 | the connection leaves every index; a user that moved on keeps its new connection |
| Sessions.Session.Bind | session/session.go:132-195 | the connection gets the user, the previous holder alone loses it and is returned for closing |
| Sessions.Session.Unbind | session/session.go:204-231 | only a connection bound to that very user is unbound |
| Sessions.Session.Subscribe | session/session.go:387-419 | exactly the named registered connections get the attribute and are listed |
| Sessions.Session.Unsubscribe | session/session.go:422-449 | exactly the named registered connections lose both |
| Sessions.Session.DoUnsubscribe | session/session.go:571-582 | one connection leaves one channel, and nothing else changes |
| Sessions.BindInverse | session/session.go:132-195 | freeing the old user, displacing the holder and binding keeps users the exact inverse |
| Sessions.DisplacedLeaves | session/session.go:72-111 | when a user is bound elsewhere and the displaced connection leaves any number of other operations later, the user keeps its new connection |
| Sessions.ComesBack | session/session.go:48-69 | a connection that leaves with a channel attribute and is registered again is missing from the channel |
| Sessions.NewcomerListed | session/session.go:48-69 | the channel index survives a registration if and only if the newcomer was registered or carries no channel |
| NodeLink.NodeLinker.StoreSource | internal/link/node.go:412-454 | stores at one (user, name); waits once more when the pair comes to this instance and is done once more when it goes to another, so waits minus dones equals the pairs bound here |
| NodeLink.NodeLinker.DeleteSource | internal/link/node.go:457-489 | deletes only a matching binding, is done once more exactly if it was bound to this instance, keeps the same count, and leaves no empty user |
| NodeLink.NodeLinker.LoadSource | internal/link/node.go:492-503 | reads the flat map |
| NodeLink.NodeLinker.LocateNodeBinding | internal/link/node.go:80-102 | answers from the cache, or caches what the locator says, in every error case |
| NodeLink.NodeLinker.AskNode | internal/link/node.go:49-71 | says where the user is after the answer has been cached |
| NodeLink.NodeLinker.BindNode | internal/link/node.go:116-128 | caches a binding exactly when the locator accepted it |
| NodeLink.NodeLinker.UnbindNode | internal/link/node.go:156-168 | drops a matching binding exactly when the locator accepted it |
| NodeLink.NodeLinker.OnEvents | internal/link/node.go:537-546 | after any run of events a pair is bound to a node exactly if a bind said so and no later event rebound it or unbound that node, or it was so before and nothing ended it; the count is kept |
| NodeLink.RemainsExactly | internal/link/node.go:537-546 | this holds of the event handler's steps from any map, so an unbind removes the pair exactly from the node it names |
| NodeLink.BoundAfterStore | internal/link/node.go:412-454 | the four ways a store changes the number of pairs bound to an instance |
| NodeLink.LateUnbind | internal/link/node.go:457-489 | a late unbind of a node the user has left removes nothing |
| RedisLock.HolderIsStored | lock/redis/script.go:4-35 | over every run, while a lease runs, the stored value is the holder's version with the lease's deadline |
| RedisLock.MutualExclusion | lock/redis/maker.go:93-183 | meanwhile nobody acquires, a stale renew or release changes nothing, and the holder's own succeed |
| RedisLock.AcquiredOnlyWhenFree | lock/redis/maker.go:93-123 | a successful acquire comes after the release or the end of the previous lease |
| RedisLock.LeaseSurvives | lock/redis/script.go:4-35 | nothing others do shortens, moves or takes over a running lease |
| RedisLock.RenewalMatchesAcquire | lock/redis/maker.go:168-183 | renewing gives the lease acquiring gave exactly from one millisecond up |
| RedisLock.Client.Acquire | lock/redis/maker.go:93-123 | with any steps of others between attempts, the commands sent are exactly the attempts with those pauses; the first attempt that finds the key free acquires it and starts a lease, and failure comes after the limit plus two attempts, all of which found the key taken |
| RedisLock.OneTooMany | lock/redis/maker.go:93-123 | a key without a deadline and a limit of m: m + 2 commands go out in vain |
| RedisLock.Locker.Acquire | lock/redis/locker.go:18-26 | as the client, with this locker's version; success stores a deadline the configured lease ahead in whole milliseconds, at least one, and sets the renewal to half the lease, within it |
| RedisLock.Locker.TryAcquire | lock/redis/locker.go:29-31 | one attempt, which succeeds exactly when no live key exists, for a lease of its own or the configured one in whole milliseconds, and no timer; a refused one changes nothing |
| RedisLock.Locker.Renewal | lock/redis/locker.go:45-53 | whenever it fires, it succeeds exactly if the key still holds this version, and then the deadline is the configured lease ahead in whole milliseconds, or the key is gone if that is less than one, and the timer is set to half of it; if a lease of its own still ran, it is extended and the timer is in time; if another locker has the key, nothing changes and the timer stays off |
| RedisLock.Locker.Release | lock/redis/locker.go:34-42 | stops the timer and deletes the key only if it still holds this version |
| MemcacheLock.StaysNumbered | lock/memcache/maker.go:126-151 | an item handed out with a key's current cas number has the key's current value |
| MemcacheLock.HolderIsStored | lock/memcache/maker.go:62-151 | over every interleaving of gets and swaps, while a lease runs, the stored value is the holder's |
| MemcacheLock.MutualExclusion | lock/memcache/maker.go:62-151 | meanwhile nobody adds the key, and no get or pending swap of another version changes an item |
| MemcacheLock.AddedOnlyWhenFree | lock/memcache/maker.go:62-113 | a successful add comes after the end of the previous lease |
| MemcacheLock.HolderSwaps | lock/memcache/maker.go:126-151 | the holder's swap succeeds exactly when nothing was stored since its get |
| MemcacheLock.RenewalDefeatsRelease | lock/memcache/maker.go:116-123 | a release can fail because of the locker's own renewal, and the lease runs on |
| MemcacheLock.LeaseLength | lock/memcache/maker.go:62-70 | a lease is asked for in whole seconds, and lasts as long exactly between one second and 30 days; shorter it never ends, longer it has ended at once |
| MemcacheLock.ReleaseExpires | lock/memcache/maker.go:116-118 | the date a release sets has passed, for clocks up to the year 2107 |
| MemcacheLock.Client.TryAcquire | lock/memcache/maker.go:95-113 | one attempt, which succeeds exactly when no live key exists and then starts a lease of the locker's own or the configured length |
| MemcacheLock.Client.Acquire | lock/memcache/maker.go:62-92 | as on Redis: the exact commands, success at the first attempt that finds the key free, failure after the limit plus two vain attempts |
| MemcacheLock.OneTooMany | lock/memcache/maker.go:62-92 | a key without a deadline and a limit of m: m + 2 commands go out in vain |
| MemcacheLock.Client.Swap | lock/memcache/maker.go:126-151 | with any steps of others in between: success, miss, conflict or refusal exactly by what the key holds at the get and at the swap; success stores this one key anew and moves the holder's lease only, anything else changes no item |
| ByteBuffer.Writer.Grow | core/buffer/writer.go:194-200 | makes room, keeping the contents; the slice is replaced, and the contents moved once, exactly if less than one byte would be left over |
| ByteBuffer.Writer.GrowSlice | core/buffer/writer.go:202-208 | keeps the contents in a slice at least twice as long; bytes moved by all growths never exceed the capacity |
| ByteBuffer.Writer.WriteBools | core/buffer/writer.go:74-84 | appends one byte per value, one for true and zero for false |
| ByteBuffer.Writer.WriteUints | core/buffer/writer.go:96-156 | appends the words in the given width, each weighing its value in the given byte order |
| Wire.BytesWeigh | core/buffer/writer.go:96-156 | the bytes of a word weigh its value: the last one is the unit in big endian, the first one in little endian |
| ByteBuffer.Writer.WriteAll | core/buffer/writer.go:66-191 | any script of writes appends the encodings in order, across every growth |
| ByteBuffer.Reader.Slices | core/buffer/reader.go:401-412 | the next n words, or an error that moves nothing |
| ByteBuffer.Reader.ReadUints | core/buffer/reader.go:114-296 | decodes n words of a width, each the weight of its bytes in the given order |
| Wire.UintWeighs | core/buffer/reader.go:133-296 | what a word decodes to is the weight of its bytes in the given order |
| ByteBuffer.ItemBack | core/buffer/reader.go:133-296 | decoding what was encoded gives the values back, signed and unsigned, in both byte orders |
| ByteBuffer.Reader.ReadAll | core/buffer/reader.go:133-296 | replaying the reads of a script returns its values and uses up exactly its bytes |
| NoCopy.Buffer.AddToHead | core/buffer/nocopy_buffer.go:206-251 | a part becomes the first of the chain, all links and counts in order |
| NoCopy.Buffer.AddToTail | core/buffer/nocopy_buffer.go:254-299 | a part becomes the last of the chain, all links and counts in order |
| NoCopy.Buffer.MountBlock | core/buffer/nocopy_buffer.go:57-77 | mounting a block puts its bytes before or after the others |
| NoCopy.Buffer.MountBuffer | core/buffer/nocopy_buffer.go:78-84 | mounting a buffer puts all its bytes before or after the others |
| NoCopy.Buffer.Len | core/buffer/nocopy_buffer.go:31-54 | the number of bytes held at any depth, remembered for the next call |
| NoCopy.Buffer.Bytes | core/buffer/nocopy_buffer.go:133-168 | what is read out by the rule for zero, one and more nodes |
| NoCopy.BytesExact | core/buffer/nocopy_buffer.go:133-168 | reading out never invents bytes, and gives all of them exactly for chains without a hidden single node |
| NoCopy.NoEmptyFaithful | core/buffer/nocopy_buffer.go:133-168 | buffers without empty parts read out as the concatenation of their blocks |
| NoCopy.EmptyBufferHides | core/buffer/nocopy_buffer.go:140-148 | an empty buffer in front of the only node hides its bytes |
| NoCopy.MountedBehindEmpty | core/buffer/nocopy_buffer.go:57-84 | mounting an empty buffer and then a block, and reading out, gives nothing |
| NoCopy.Buffer.Visit | core/buffer/nocopy_buffer.go:105-130 | shows the nodes at any depth in order, up to and with the first that stops it |
| NoCopy.Buffer.Release | core/buffer/nocopy_buffer.go:176-203 | counts the delay down and then gives every block back once and leaves the buffer empty |
| NoCopy.ReleaseTimes | core/buffer/nocopy_buffer.go:171-203 | after a delay of k, any number of releases gives each block back exactly once, from the k-th on |
| NoCopy.Node.Release | core/buffer/nocopy_node.go:48-65 | gives the node's block back and clears the node |

## Left out

Numbers and representation:

- Digits are values 0 to 9 instead of their characters; a table cutoff is written as the number it spells; shifts and masks of 64-bit words are multiplications, divisions and remainders by 2^k on a bounded word type.
- Big integers are unbounded integers. Decimal exponents are unbounded too: overflow of a 32-bit exponent, where the code panics or wraps, is not modelled. A coefficient that was never set is 0.
- DecimalText.RoundTrip: is stated for exponents from -2^31 on, which is every exponent the code can hold.
- FloatDecimal.FromBits: NaN and infinities, on which the code panics, are excluded; formats are binary32 and binary64.
- Shortest.RoundShortest: takes exponents up to those of finite floats, which is all its callers pass.
- TaylorSeries.FactorialCache.ExpTaylor: concurrent calls that race on the shared cache are not modelled.
- Ln, fractional powers, Hull-Abrham, trigonometry and digit-count estimates rest on floating-point logarithms or fitted constants.
- JSON, SQL, XML and Gob glue of the decimal type wraps printing and parsing.

Dispatch and registry:

- How endpoint text is parsed is a parameter; services are never null; the per-event index repeats the per-game one; the random draw is a parameter.
- RoundRobin.ExactFairness: needs non-negative weights with a positive sum.

Framing:

- Reassembly.Conn.Feed: a length within four of 2^32, where the code's 32-bit sum wraps and it panics, is an outcome of its own.
- ReadBuffer and the peeking reader do what ReadMessage does on other reader types.

Bookkeeping:

- Sessions.Session.AddConn: connection identifiers are unique, so it is not called for a second connection with a registered identifier.
- Broadcasting, sending, closing and address queries only read the indexes; a kicked connection is returned instead of closed in the background.
- NodeLink: both handlers are set, and their calls are taken as part of the step; RPC retries call the same store and delete.

Locks:

- RedisLock.Client.Acquire: the endless loop is followed only as long as the given pauses last; transport errors are left out, as in the memcached client.
- Versions are non-empty and differ between lockers; a lock is told by its version. Real timers, goroutines and clock drift are left out.
- MemcacheLock.LeaseLength: leases of 2^31 seconds or more, and leases longer than the time since 1970, are left out.

Buffers:

- ByteBuffer.Writer.WriteAll: starts from a slice as long as its capacity, as the constructors with a capacity make it; the pools are left out. Floats travel as their bit patterns, strings and runes as bytes and 32-bit integers. Seeking is left out.
- NoCopy.Buffer.Release: nested buffers have no delay of their own and have not been released; a mounted buffer is complete, hangs in no other chain and is not changed afterwards.
- NoCopy.Buffer.MountBlock: blocks keep their bytes while mounted; a byte slice is a block that is not pooled. Mounting null or a foreign type does nothing in the code and is left out.

Network servers and clients, service registries, message buses, caches, HTTP, logging, configuration and cryptography are plumbing over libraries.
