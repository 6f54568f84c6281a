# Verified models of 3x-ui

Dafny models of four parts of the 3x-ui panel, each with the properties its users rely on.
`dafny verify dfyconfig.toml` checks the whole project.

**WireGuard keys in the browser** (`JsNumbers`, `Residues`, `Limbs`, `FieldOps`, `Rfc7748`, `Wireguard`, `Base64`).
The hand-written field arithmetic of the key generator, on arrays of limbs that are updated in place and
deliberately aliased.  Numbers are JavaScript numbers: the type of an array element only holds integers that a
double represents exactly, and bit operations convert to 32 bits first, so verification shows that nothing rounds.
The result is tied to X25519 as section 5 of RFC 7748 defines it, and the text form to section 4 of RFC 4648.

**The JSON linter of the editor** (`JsonTable`, `JsonValues`, `JsonParser`, `JsonGrammar`, `JsonSound`, `JsonComplete`,
`JsonMeaning`, `JsonStrings`).  The generated LALR automaton with all its states and productions, its shift/reduce
loop, and the grammar of section 2 of RFC 8259.  The parser is sound and complete for the grammar.  The values it
builds are JavaScript objects, where assigning to `__proto__` is no ordinary assignment, and strings are sequences of
UTF-16 code units.  What a text means is defined independently of the parser, with strings by section 7 of RFC 8259.

**Vue's child reconciliation and dependency tracking** (`DomList`, `VueDiff`, `VueDeps`).  The two-ended diff with
its once-built key table edits the list of child elements; watchers and dependencies index each other with double
buffering.  The key table is an object literal and inherits property names; what follows from that is part of the
model.

**The panel's service** (`PanelModel`, `PanelStore`, `PanelCounters`, `PanelTick`, `PanelSweep`, `PanelTraffic`,
`PanelTickLaws`, `PanelClients`, `PanelClientLaws`, `PanelClientEffects`, `PanelRuns`, `PanelDelays`, `PanelConfig`,
`PanelPublishing`, `PanelPorts`, `PanelRestart`).
Every client is stored twice, in its inbound's settings and as a row of client_traffics.  The models cover the
client operations, the accounting tick with its swallowed errors, the generated configuration, the check of ports
and the protocol of restarts.  `PanelStore.Consistent` is the agreement of the two copies.  Tables are values, the
time is a parameter, saves succeed, and database errors appear where the source treats them differently.

Some expected properties are false of the code.  For these the models prove when they hold:

- A string is read as its text spells it unless the text has a four-digit escape, an escaped slash, or an escaped
  backslash before one of six letters (`JsonStrings.ReadExactly`).
- A JSON text keeps its meaning unless such a string or key survives in it, or a key is `__proto__`
  (`JsonMeaning.RoundTrip`); with two spellings of a name in one object it can keep it by coincidence
  (`JsonMeaning.ReadsAsExactly`, `JsonMeaning.TwoSpellingsCoincide`).
- The diff throws exactly if the walk over both lists looks up the key `__proto__`, or the name of another inherited
  property that no old node has as its key (`VueDiff.UpdateChildren`).
- A configuration lists exactly the active clients unless clients share the email of a disabled row
  (`PanelConfig.RemovalIsFilter`, `PanelConfig.RowsAreFilters`).
- Settings and rows stay in agreement unless a form overwrites an inbound that has clients with emails, or a deleted key
  is shared by several clients with emails (`PanelRuns.RunConsistent`, `PanelClientLaws.AddedInboundConsistent`,
  `PanelClientLaws.DeletedClientConsistent`).
- A tick that reports success enforces the limits unless a disabling step failed and was needed
  (`PanelTickLaws.TickEnforces`, `PanelTickLaws.FailedDisablingLeaves`).
- A renewal is undone in the same instant if it lands exactly on it (`PanelTick.RenewalWasted`).
- An inbound is charged with its own traffic unless an outbound shares its tag (`PanelCounters.ChargedWithOwn`).
- A restart request is lost if the configuration cannot be generated (`PanelRestart.FailedRestartLosesRequest`).

## Model

| member | source | states |
|---|---|---|
| Limbs.CarriedValue | 3x-ui/web/assets/js/util/utils.js:330-336 | one carry pass changes the value of sixteen limbs by a multiple of 2(2^255 - 19), so the residue stays |
| Limbs.FirstCarry | 3x-ui/web/assets/js/util/utils.js:330-336 | after one pass over accumulated limbs all but the lowest are normal and the lowest is within 2^34 |
| Limbs.SecondCarry | 3x-ui/web/assets/js/util/utils.js:330-336 | a second pass makes the number reduced: lowest limb in [-38, 65573], the others in [0, 65535] |
| Limbs.ThirdCarry | 3x-ui/web/assets/js/util/utils.js:310-312 | a third pass makes every limb of a reduced number normal |
| FieldOps.Carry | 3x-ui/web/assets/js/util/utils.js:330-336 | the in-place pass computes `Carried`, with every intermediate exact in a double and every bit operand meeting its conversion to 32 bits |
| FieldOps.CSwap | 3x-ui/web/assets/js/util/utils.js:338-345 | the masked swap exchanges the arrays if the bit is 1 and leaves them if it is 0, also when both are one array |
| FieldOps.Add | 3x-ui/web/assets/js/util/utils.js:347-350 | limbwise sum, also in place; for reduced inputs the sum in the field, as a legal operand of a multiplication |
| FieldOps.Subtract | 3x-ui/web/assets/js/util/utils.js:352-355 | limbwise difference, also in place; for reduced inputs the difference in the field, as a legal operand of a multiplication |
| FieldOps.Products | 3x-ui/web/assets/js/util/utils.js:358-362 | the schoolbook product of operands has the product of the values, and no entry leaves the exact range |
| FieldOps.FoldUpper | 3x-ui/web/assets/js/util/utils.js:363-364 | folding by 38 keeps the residue modulo 2^255 - 19 |
| FieldOps.MultMod | 3x-ui/web/assets/js/util/utils.js:357-369 | a reduced number whose residue is the product, even when output and inputs are the same array |
| Wireguard.InvertExponentValue | 3x-ui/web/assets/js/util/utils.js:371-382 | 254 square-and-multiply steps that skip indices 2 and 4 accumulate exactly the exponent p - 2 |
| Wireguard.Invert | 3x-ui/web/assets/js/util/utils.js:371-382 | the result is x^(p - 2), also when output and input are the same array |
| Wireguard.SubtractPrimeOnce | 3x-ui/web/assets/js/util/utils.js:313-323 | one round with borrows and masked swap subtracts p exactly if the value is at least p |
| Wireguard.TwoSubtractions | 3x-ui/web/assets/js/util/utils.js:313-323 | two conditional subtractions reach the representative in [0, p) from any sixteen normal limbs |
| Wireguard.ThreeCarries | 3x-ui/web/assets/js/util/utils.js:310-312 | three passes normalise any accumulated limbs without changing the residue |
| Wireguard.Pack | 3x-ui/web/assets/js/util/utils.js:306-328 | the 32 little-endian bytes of the unique representative in [0, p) |
| Wireguard.ClampDecodes | 3x-ui/web/assets/js/util/utils.js:384-387 | clamping the two end bytes is the scalar decoding of section 5 of RFC 7748 |
| Wireguard.Clamp | 3x-ui/web/assets/js/util/utils.js:384-387 | the clamped bytes, read as a number, are the decoded scalar |
| Wireguard.RoundFirstHalf | 3x-ui/web/assets/js/util/utils.js:406-415 | the first ten field operations, in their aliased form, leave DA + CB, DA - CB, AA and BB of the round |
| Wireguard.RoundSecondHalf | 3x-ui/web/assets/js/util/utils.js:416-423 | the last eight field operations turn these into the new ladder variables |
| Wireguard.HalvesMakeRound | 3x-ui/web/assets/js/util/utils.js:406-423 | the halves together are one round of the Montgomery ladder of section 5 of RFC 7748 for u = 9 |
| Wireguard.LadderStep | 3x-ui/web/assets/js/util/utils.js:402-426 | one loop iteration is: swap by the key bit, one round, swap back |
| Wireguard.RunLadder | 3x-ui/web/assets/js/util/utils.js:402-426 | the 255 iterations compute the ladder that swaps before and after every round |
| Rfc7748.EagerEqualsDeferred | 3x-ui/web/assets/js/util/utils.js:402-426 | for every scalar and start, swapping before and after each round ends like the deferred swaps of RFC 7748 |
| Rfc7748.LittleEndianBit | 3x-ui/web/assets/js/util/utils.js:403 | bit t of the number is bit t mod 8 of byte t / 8 |
| Rfc7748.LittleEndianInjective | 3x-ui/web/assets/js/util/utils.js:324-327 | the packed bytes are determined by the number they spell |
| Wireguard.GeneratePublicKey | 3x-ui/web/assets/js/util/utils.js:389-431 | for every 32-byte private key the result spells X25519(decoded key, 9) |
| Base64.DigitCodeIsSymbol | 3x-ui/web/assets/js/util/utils.js:447-452 | the branch-free expression is the alphabet of section 4 of RFC 4648 for every six-bit digit |
| Base64.EncodeBase64 | 3x-ui/web/assets/js/util/utils.js:445-453 | writes the four symbols of up to three bytes, and nothing beyond the end of the destination |
| Base64.KeyToBase64 | 3x-ui/web/assets/js/util/utils.js:455-462 | the result is the RFC 4648 encoding of the key, including the two-byte eleventh block and the last, ineffective write |
| Base64.DecodeEncode | 3x-ui/web/assets/js/util/utils.js:464-471 | a standard decoder inverts the encoding of every byte string |
| Base64.KeyRoundTrip | 3x-ui/web/assets/js/util/utils.js:455-471 | a 32-byte key is 43 alphabet characters and one `=`, and decodes to itself |
| JsonTable.EdgeShape | 3x-ui/web/assets/codemirror/jsonlint.js:1 | every shift or goto leads to a state entered by one symbol only, from the states that may precede it |
| JsonTable.ReducingPath3 | 3x-ui/web/assets/codemirror/jsonlint.js:1 | whoever reaches a reducing state over three edges has that production's right-hand side on them, and its goto exists |
| JsonParser.StepDecreases | 3x-ui/web/assets/codemirror/jsonlint.js:1 | each step shifts a token, pops, or moves up in a finite rank: the loop ends on every token sequence |
| JsonParser.Parse | 3x-ui/web/assets/codemirror/jsonlint.js:1 | the loop over the state, symbol, value and location stacks returns what the run of the automaton returns |
| JsonSound.RhsOnTop | 3x-ui/web/assets/codemirror/jsonlint.js:1 | at every reduction the right-hand side is on top of the stack |
| JsonSound.StepKeeps | 3x-ui/web/assets/codemirror/jsonlint.js:1 | every step keeps stacks of equal height whose entries derive consecutive tokens and hold their values |
| JsonSound.ParseSound | 3x-ui/web/assets/codemirror/jsonlint.js:1 | a returned value comes from tokens that derive a JSON text before the end of input, and is its value; the parser never runs off its stack, lacks a goto or returns `true` |
| JsonComplete.ParseValue | 3x-ui/web/assets/codemirror/jsonlint.js:1 | wherever a value may start, its tokens are consumed and its value is pushed, for values of any depth |
| JsonComplete.ParseComplete | 3x-ui/web/assets/codemirror/jsonlint.js:1 | every JSON text followed by end of input is accepted with its value |
| JsonComplete.ParseCorrect | 3x-ui/web/assets/codemirror/jsonlint.js:1 | the parser returns v if and only if the input starts with a JSON text of value v and the end of input |
| JsonComplete.SpellingDeterminesValue | 3x-ui/web/assets/codemirror/jsonlint.js:1 | the grammar assigns one value to one token sequence |
| JsonMeaning.EvalIntended | 3x-ui/web/assets/codemirror/jsonlint.js:1 | a clean text has the value section 7 of RFC 8259 and last-key-wins give it, and if no object spells a name in two ways, no other text has |
| JsonMeaning.NamesForceReadable | 3x-ui/web/assets/codemirror/jsonlint.js:1 | if every meant name is read from some key of the object, all its keys are readable |
| JsonMeaning.ReadsAsExactly | 3x-ui/web/assets/codemirror/jsonlint.js:1 | the value one text is read as is the value another one means if and only if their strings, names and last values under each name correspond, level by level; there is no condition on either text |
| JsonMeaning.RoundTrip | 3x-ui/web/assets/codemirror/jsonlint.js:1 | a text comes back with its meaning if and only if it reads as itself in that sense; a text whose objects spell no name in two ways comes back with its meaning if and only if all keys and surviving strings are readable and no key is `__proto__`; a clean text always does |
| JsonMeaning.ObjectExactly | 3x-ui/web/assets/codemirror/jsonlint.js:1 | any object is read as it is meant if and only if no key means `__proto__` and, for each name that one of its keys means or is read as, the last value read under it is the one last meant |
| JsonMeaning.TwoSpellingsCoincide | 3x-ui/web/assets/codemirror/jsonlint.js:1 | an object that spells a name in two ways can come back right by coincidence although a key is unreadable |
| JsonMeaning.ProtoKeyIsLost | 3x-ui/web/assets/codemirror/jsonlint.js:1 | {"__proto__":1} is read as the empty object |
| JsonStrings.ReadExactly | 3x-ui/web/assets/codemirror/jsonlint.js:1 | for every text the lexer accepts, the chain of replacements yields the string the text spells if and only if it has no four-digit escape, no escaped slash and no escaped backslash before n, r, t, v, f or b |
| JsonStrings.ReadingGap | 3x-ui/web/assets/codemirror/jsonlint.js:1 | any other text is read as a string that exceeds the meant one in length plus control characters, or equals it there and has more control characters |
| JsonStrings.EscapeSpells | 3x-ui/web/assets/codemirror/jsonlint.js:1 | the usual spelling of any string is a text the lexer accepts and spells that string |
| JsonStrings.StringRoundTrip | 3x-ui/web/assets/codemirror/jsonlint.js:1 | a string written in the usual way comes back if and only if no backslash in it precedes one of these letters and every control character has a two-character escape |
| JsonStrings.BackslashNIsLost | 3x-ui/web/assets/codemirror/jsonlint.js:1 | the text backslash, backslash, n spells two characters and is read as a line feed |
| JsonStrings.FourDigitsAreLost | 3x-ui/web/assets/codemirror/jsonlint.js:1 | the four-digit escape of A is read as its six characters |
| DomList.InsertFresh | 3x-ui/web/assets/vue/vue.common.prod.js:6 | inserting a new element in front of the head of the rest puts it exactly there and repeats nothing |
| DomList.MoveForward | 3x-ui/web/assets/vue/vue.common.prod.js:6 | moving an element of the window behind it keeps all other elements in order |
| DomList.MoveBackward | 3x-ui/web/assets/vue/vue.common.prod.js:6 | moving an element of the window in front of it keeps all other elements in order |
| VueDiff.CreateKeyToOldIdx | 3x-ui/web/assets/vue/vue.common.prod.js:6 | the table finds every key of the window; an assignment to `__proto__` is lost |
| VueDiff.LookupMeaning | 3x-ui/web/assets/vue/vue.common.prod.js:6 | a table built once still finds exactly the live old node of a key, and never a consumed one |
| VueDiff.CompareEnds | 3x-ui/web/assets/vue/vue.common.prod.js:6 | the four comparisons of ends, tried in this order, keep: children = finished prefix, live old window, finished suffix |
| VueDiff.FindIdxInOld | 3x-ui/web/assets/vue/vue.common.prod.js:6 | the search yields the first live entry of the range that the new node, as the first of the two compared, matches, or there is none |
| VueDiff.OnlyNamedCandidate | 3x-ui/web/assets/vue/vue.common.prod.js:6 | with unique keys the entry found through the table is the only live one of that name |
| VueDiff.ReusedIsFirst | 3x-ui/web/assets/vue/vue.common.prod.js:6 | without placeholders a node without a key is rendered with the first live entry that matches it, or none matches |
| VueDiff.PlaceholderIsMissed | 3x-ui/web/assets/vue/vue.common.prod.js:6 | the search compares the new node first: it misses a matching placeholder away from the ends, the node is created, the old window stays open, and the key "constructor" is then looked up |
| VueDiff.Middle | 3x-ui/web/assets/vue/vue.common.prod.js:6 | a step in the middle clears the entry that the table or the search yields if that entry, compared first, matches too, otherwise creates the node and leaves the old entries alone; it throws exactly for a key that names an inherited property |
| VueDiff.UpdateChildren | 3x-ui/web/assets/vue/vue.common.prod.js:6 | with unique keys: the children are exactly the new elements in order, keyed nodes keep their matching element, created ones are new; matching leading nodes keep their elements, then matching trailing ones of the rest, then an old head goes to a matching new tail before an old tail goes to a matching new head, and then comes the search; every new node takes what the reference without windows and holes assigns; it throws if and only if the walk over both lists looks up `__proto__` or the name of another inherited property that no old node has |
| VueDiff.TakesIsMatching | 3x-ui/web/assets/vue/vue.common.prod.js:6 | from every position, the walk over two windows with cleared entries takes the same old nodes as a reference on the plain list of those that are left |
| VueDiff.FirstMoves | 3x-ui/web/assets/vue/vue.common.prod.js:6 | what the walk takes first, in terms of the two lists alone: common heads, common tails, the crossed ends in their order, and the result of the first search |
| VueDiff.ConstructorKeyThrows | 3x-ui/web/assets/vue/vue.common.prod.js:6 | replacing key "a" by key "constructor" throws |
| VueDeps.Tracker.AddDep | 3x-ui/web/assets/vue/vue.common.prod.js:6 | the first touch records the dependency and subscribes unless already subscribed; the two-way index stays right |
| VueDeps.Tracker.RemoveSub | 3x-ui/web/assets/vue/vue.common.prod.js:6 | one subscription of the watcher, if any, becomes a hole and the dependency is queued |
| VueDeps.Tracker.DropStale | 3x-ui/web/assets/vue/vue.common.prod.js:6 | afterwards the watcher subscribes once to what it touched this time and to nothing else |
| VueDeps.Tracker.CleanupDeps | 3x-ui/web/assets/vue/vue.common.prod.js:6 | the buffers are swapped without losing or duplicating a subscription of anybody |
| VueDeps.Tracker.CleanupSubs | 3x-ui/web/assets/vue/vue.common.prod.js:6 | all holes of all dependencies go, and nobody's subscriptions change |
| VueDeps.Tracker.Teardown | 3x-ui/web/assets/vue/vue.common.prod.js:6 | the watcher keeps a subscription only where an evaluation still going on touched something first |
| VueDeps.Tracker.Evaluate | 3x-ui/web/assets/vue/vue.common.prod.js:6 | after any evaluation an active watcher subscribes once to a dependency if and only if this run touched it; so does every watcher evaluated meanwhile, at any depth, with respect to its own last run; all other watchers keep what they record and subscribe to |
| VueDeps.Tracker.Notify | 3x-ui/web/assets/vue/vue.common.prod.js:6 | an active watcher is updated once if it records the dependency and otherwise not at all |
| VueDeps.PresentKeepsCounts | 3x-ui/web/assets/vue/vue.common.prod.js:6 | dropping holes keeps every subscriber as often as it was |
| VueDeps.FirstTouchesSet | 3x-ui/web/assets/vue/vue.common.prod.js:6 | the recorded dependencies are the touched ones |
| PanelRestart.Equals | 3x-ui/xray/config.go:25-65 | true exactly if the configurations agree in everything but the two observatory sections |
| PanelRestart.AfterRestart | 3x-ui/web/service/xray.go:189-208 | the configuration kept or installed agrees with the generated one in all compared fields; an equal running process stays up, and after a failed start only such a process runs |
| PanelRestart.XrayService.SetToNeedRestart | 3x-ui/web/service/xray.go:221-223 | a request raises the flag, whatever it was |
| PanelRestart.XrayService.IsNeedRestartAndSetFalse | 3x-ui/web/service/xray.go:225-227 | the flag is taken exactly once |
| PanelRestart.XrayService.RestartXray | 3x-ui/web/service/xray.go:184-209 | a failed generation changes nothing; otherwise the process is kept if it runs, is not forced and is equal, and else replaced; a failed start is reported and leaves none running |
| PanelRestart.XrayService.StopXray | 3x-ui/web/service/xray.go:211-219 | the process stops, and only a running one is reported stopped |
| PanelRestart.StepKeepsOrder | 3x-ui/web/service/xray.go:184-209 | the lock holder is the one thread inside a restart, and what it has read is never older than what the process was started from |
| PanelRestart.StepKeepsRequest | 3x-ui/web/service/xray.go:184-227 | whoever takes the next step, a request stays accounted for |
| PanelRestart.NoRequestLost | 3x-ui/web/web.go:248-255 | in every interleaving without failed generation, each request finds the flag set, a restart under way that reads its version or later, or a configuration that agrees with its version or later ones, and then a running process unless a step may have stopped it |
| PanelRestart.QuietMeansServed | 3x-ui/web/web.go:248-255 | once the flag is down and no restart is under way, every request has been served, and the process runs unless a step may have stopped it |
| PanelRestart.JobServes | 3x-ui/web/web.go:248-255 | whenever the flag is up and the lock free, one run of the job is possible and serves every request |
| PanelRestart.FailedRestartLosesRequest | 3x-ui/web/service/xray.go:189-192 | from any quiet state a restart that cannot generate its configuration loses the request it took |
| PanelRestart.InstalledExactly | 3x-ui/web/service/xray.go:194-202 | a restart ends with what it generated in all fields, unless it leaves alone a running process that differs in the observatories only |
| PanelConfig.RemoveIndex | 3x-ui/web/service/xray.go:59-61 | the tail of the shared backing array moves left by one; the last slot keeps its content |
| PanelConfig.DropClients | 3x-ui/web/service/xray.go:93-103 | ranging while removing tests the client shifted to the index but removes the one that was there |
| PanelConfig.RemovalIsFilter | 3x-ui/web/service/xray.go:93-103 | the loop is an order-preserving filter if and only if, behind an entry with the email, either all entries carry it or none does |
| PanelConfig.StrangerRemoved | 3x-ui/web/service/xray.go:93-103 | two clients of one email around a stranger: all three are removed |
| PanelConfig.RowsAreFilters | 3x-ui/web/service/xray.go:92-104 | row by row exactly the clients without a disabled row are left, if and only if each disabled row meets an unchanging tail behind its email |
| PanelConfig.AfterRowsIsFilter | 3x-ui/web/service/xray.go:92-104 | that is so if no two clients share the email of a disabled row |
| PanelConfig.DistinctMeansNoTwins | 3x-ui/web/service/xray.go:92-104 | distinct emails suffice for that, unless the row without email is disabled |
| PanelConfig.ConfigClients | 3x-ui/web/service/xray.go:85-126 | the published clients are those left, without the switched-off ones, reduced to the kept keys |
| PanelConfig.ListedExactly | 3x-ui/web/service/xray.go:85-126 | a client is listed if and only if its row is not disabled and its own switch is not off |
| PanelConfig.ConfigInbounds | 3x-ui/web/service/xray.go:81-133 | the entries are made of the enabled inbounds, each once and in order, with the clients their own rows leave |
| PanelConfig.GetXrayConfig | 3x-ui/web/service/xray.go:63-163 | first a tick without counters, whose result is ignored; then from a consistent store a client with an email occurs in the result if and only if its inbound and its row are enabled after that tick and it is not switched off, and then under its inbound's tag |
| PanelConfig.ListedIffEnabled | 3x-ui/web/service/xray.go:77-163 | in a consistent store a client with an email is listed if and only if its row is enabled and it is not switched off, unless the row without email is disabled |
| PanelConfig.PublishedIffEnabled | 3x-ui/web/service/xray.go:63-163 | the same from the store before the call: the row is the one that the tick without counters leaves |
| PanelConfig.TagsPublished | 3x-ui/web/service/xray.go:81-133 | with distinct tags exactly the tags of enabled inbounds occur |
| PanelConfig.FinalKeepsOrder | 3x-ui/web/service/xray.go:105-126 | the clients listed keep their order, and none is listed twice |
| PanelConfig.ConfigurationPublishes | 3x-ui/web/service/xray.go:81-133 | who occurs in a configuration generated from a consistent store, with identity and tag |
| PanelPorts.DecimalInjective | 3x-ui/web/controller/inbound.go:99-103 | different ports print differently |
| PanelPorts.DecimalSpells | 3x-ui/web/controller/inbound.go:99-103 | the printed digits spell the number |
| PanelPorts.TagInjective | 3x-ui/web/controller/inbound.go:99-103 | two printed tags are equal if and only if the ports are, and the addresses are equal or both mean any address |
| PanelPorts.ApartMeansDistinct | 3x-ui/web/service/inbound.go:332-336 | if no two inbounds clash, all printed tags differ |
| PanelPorts.PortShared | 3x-ui/web/service/inbound.go:43-71 | inbounds on one port have different addresses, and none of them listens on all |
| PanelPorts.SavedApart | 3x-ui/web/service/inbound.go:43-71 | a listener that passed the check can be stored without a clash or a duplicate tag |
| PanelPorts.InboundTable.CheckPortExist | 3x-ui/web/service/inbound.go:43-71 | in a valid table, true if and only if storing the listener, under the ignored key or a new one, would make two inbounds clash |
| PanelPorts.InboundTable.Add | 3x-ui/web/controller/inbound.go:99-106 | succeeds exactly without a clash, so the unique tag column never refuses; ports stay apart |
| PanelPorts.InboundTable.Import | 3x-ui/web/controller/inbound.go:294-306 | the same for an imported inbound, which always gets a new key |
| PanelPorts.InboundTable.Update | 3x-ui/web/service/inbound.go:288-336 | the inbound itself is no clash; its tag is printed anew; ports stay apart |
| PanelPorts.InboundTable.RunAll | 3x-ui/web/service/inbound.go:43-71 | after any run of adding, importing, updating and deleting, ports are apart and tags pairwise distinct |
| PanelTick.NextExpiryIsLeast | 3x-ui/web/service/inbound.go:947-950 | renewal ends at the least expiry + k * reset * 86400000 that is not before now |
| PanelTick.RenewedExpiry | 3x-ui/web/service/inbound.go:947-950 | the loop ends and computes that expiry |
| PanelTick.RenewalWasted | 3x-ui/web/service/inbound.go:908-987 | a renewed row is disabled again in the same instant if and only if now is a whole number of periods after the old expiry |
| PanelTraffic.Panel.AddInboundTraffic | 3x-ui/web/service/inbound.go:777-797 | every inbound receives the sums of the inbound counters with its tag |
| PanelTraffic.Panel.AdjustTraffics | 3x-ui/web/service/inbound.go:856-906 | the nested loops rewrite client and row together, in the inbounds of the delayed rows |
| PanelTraffic.Panel.AddClientTraffic | 3x-ui/web/service/inbound.go:799-854 | loaded rows are adjusted, charged with the first counter of their email and saved |
| PanelTraffic.Panel.AutoRenewClients | 3x-ui/web/service/inbound.go:908-987 | the nested loops renew due rows and their clients together |
| PanelTraffic.Panel.DisableInvalidClients | 3x-ui/web/service/inbound.go:1068-1073 | a row is enabled afterwards if and only if it was and is not exhausted, nothing else changes, and the switched-off rows are counted |
| PanelTraffic.Panel.DisableInvalidInbounds | 3x-ui/web/service/inbound.go:1030-1035 | an inbound is enabled afterwards if and only if it was and is not exhausted, nothing else changes, and the count is 0 exactly if nothing did |
| PanelTraffic.Panel.AddTraffic | 3x-ui/web/service/inbound.go:733-775 | which errors are returned, which are swallowed, and when the whole tick is rolled back; the five steps otherwise |
| PanelSweep.SweepClientsTouches | 3x-ui/web/service/inbound.go:876-888 | in an inbound with distinct emails each client meets its row as it was loaded |
| PanelSweep.SweepInboundsSweeps | 3x-ui/web/service/inbound.go:870-897 | over all loaded inbounds each row is rewritten once, through the one client it belongs to |
| PanelSweep.SweepKeeps | 3x-ui/web/service/inbound.go:856-987 | in a consistent store either pass rewrites exactly the rows it wants, and their clients alike |
| PanelSweep.SweptConsistent | 3x-ui/web/service/inbound.go:856-987 | writing such rows and clients back keeps the two copies in agreement |
| PanelTickLaws.TickEnforces | 3x-ui/web/service/inbound.go:1004-1074 | in every store, a tick reported as successful leaves nobody enabled over quota or expired unless a disabling call failed, and no inbound unless its own did; a failed disabling of inbounds undoes the tick |
| PanelTickLaws.FailedDisablingLeaves | 3x-ui/web/service/inbound.go:908-1074 | if the disabling of clients fails in a consistent store, all clients are within limits afterwards if and only if no row needed it, which can be computed from each row, its traffic and the clock |
| PanelTickLaws.DisablingNeeded | 3x-ui/web/service/inbound.go:908-1074 | which rows are enabled and exhausted when the disabling of clients fails |
| PanelTickLaws.TrafficConserved | 3x-ui/web/service/inbound.go:799-854 | in every store each row receives its user's traffic exactly once and nobody else's; only its expiry may change besides |
| PanelTickLaws.InboundTrafficConserved | 3x-ui/web/service/inbound.go:777-797 | with distinct tags the inbounds together receive each reported byte of an existing inbound exactly once |
| PanelTickLaws.InboundsCharged | 3x-ui/web/service/inbound.go:733-797 | a committed tick adds to each inbound the sums of the inbound counters of its tag; it is enabled afterwards if and only if it was and is neither over its quota with the new numbers nor expired; else only expiries of its clients change |
| PanelTickLaws.TickTotals | 3x-ui/web/service/inbound.go:733-797 | with distinct tags a committed tick adds to all inbounds together every reported byte of an existing inbound exactly once |
| PanelTickLaws.RowTick | 3x-ui/web/service/inbound.go:733-1074 | in numbers, what a tick without failures makes of a client's row: when a delayed expiry starts, when the row is renewed and until when, what it is charged, and when it is enabled afterwards |
| PanelTickLaws.AccountingKeeps | 3x-ui/web/service/inbound.go:799-906 | accounting keeps the two copies in agreement and turns a used delayed expiry into now minus it |
| PanelTickLaws.RenewingKeeps | 3x-ui/web/service/inbound.go:908-1002 | renewal keeps the two copies in agreement and rewrites exactly the due rows |
| PanelTickLaws.OutcomeLaw | 3x-ui/web/service/inbound.go:733-775 | in a consistent store a tick treats every row by itself, whichever calls fail, and leaves the store consistent |
| PanelTickLaws.OutcomeKeepsClients | 3x-ui/web/service/inbound.go:733-775 | in every store a tick changes nothing of a client but its expiry |
| PanelDelays.SparedKeeps | 3x-ui/web/service/inbound.go:154-731 | an operation that neither edits nor deletes a client leaves its row alone |
| PanelDelays.DelayStartsOnce | 3x-ui/web/service/inbound.go:856-906 | over any run of all operations that does not edit or delete the client, a delayed expiry starts exactly once, at the first committed tick that reports its traffic, and then moves by whole renewal periods only |
| PanelDelays.DelayWaits | 3x-ui/web/service/inbound.go:856-906 | until a committed tick reports traffic of the client, its delayed expiry and its period stay, whatever else happens |
| PanelClients.InboundService.CheckEmailsExistForClients | 3x-ui/web/service/inbound.go:110-128 | empty if and only if the batch is free of repetitions and of emails in use; otherwise the first offending email |
| PanelClients.InboundService.GetAllEmails | 3x-ui/web/service/inbound.go:87-99 | exactly the emails that occur in some settings |
| PanelClients.InboundService.AddInbound | 3x-ui/web/service/inbound.go:154-233 | refused or stored with one row per client; refused rows are ignored |
| PanelClients.InboundService.AddInboundClient | 3x-ui/web/service/inbound.go:408-511 | refused or appended, with a row for every client with an email |
| PanelClients.InboundService.DelInboundClient | 3x-ui/web/service/inbound.go:513-584 | drops every client with the key but only the last one's row; refuses to empty an inbound |
| PanelClients.InboundService.UpdateInboundClient | 3x-ui/web/service/inbound.go:586-731 | replaces the first client with the key; its row is renamed, created or deleted |
| PanelClients.InboundService.DelInbound | 3x-ui/web/service/inbound.go:235-276 | deletes the rows of the inbound, also if there is no such inbound, and then the inbound |
| PanelStore.ConsistentMeansDistinct | 3x-ui/web/service/inbound.go:110-152 | agreement of settings and rows implies that no two clients share an email |
| PanelClientLaws.AddedInboundConsistent | 3x-ui/web/service/inbound.go:154-233 | a new inbound keeps settings and rows in agreement if and only if its form overwrites no inbound that has clients with emails |
| PanelClientLaws.ReusedKeyBreaks | 3x-ui/web/service/inbound.go:203-209 | a form that carries the key of an inbound with a client with an email orphans its row |
| PanelClientLaws.AddedClientsConsistent | 3x-ui/web/service/inbound.go:408-511 | added clients keep settings and rows in agreement |
| PanelClientLaws.DeletedClientConsistent | 3x-ui/web/service/inbound.go:513-584 | deleting by key keeps the agreement if and only if no other dropped client had an email |
| PanelClientLaws.UpdatedClientConsistent | 3x-ui/web/service/inbound.go:586-731 | an edit keeps the agreement, whichever of the two emails are empty or equal |
| PanelClientLaws.DeletedInboundConsistent | 3x-ui/web/service/inbound.go:235-276 | deleting an inbound keeps the agreement |
| PanelClientLaws.AddStatsAdds | 3x-ui/web/service/inbound.go:1099-1112 | rows for a free batch are all created, and no other row changes |
| PanelClientEffects.ClientsAdded | 3x-ui/web/service/inbound.go:408-511 | new clients go behind the old ones, and each one with an email gets an enabled row with zero counters and its own terms; nothing else changes |
| PanelClientEffects.ClientsRefused | 3x-ui/web/service/inbound.go:408-443 | adding fails exactly for an email in use or repeated, an unknown inbound, or a client without key |
| PanelClientEffects.InboundAdded | 3x-ui/web/service/inbound.go:154-233 | a new inbound is stored as sent, under its key or an unused one, and its clients get such rows |
| PanelClientEffects.InboundRefused | 3x-ui/web/service/inbound.go:154-193 | it fails exactly for a shared port, an email in use or repeated, or a client without key |
| PanelClientEffects.ClientDeleted | 3x-ui/web/service/inbound.go:513-584 | every client with the key leaves its inbound, all others stay as often as they were, and exactly the last one's row goes |
| PanelClientEffects.DeletionRefused | 3x-ui/web/service/inbound.go:513-563 | deleting fails exactly for an unknown inbound or if no client would be left |
| PanelClientEffects.ClientEdited | 3x-ui/web/service/inbound.go:586-731 | the first client with the key is replaced in its place; its row keeps the traffic, takes over email and terms and is enabled, is new if there was no email, and goes if there is none now; nothing else changes |
| PanelClientEffects.EditRefused | 3x-ui/web/service/inbound.go:586-668 | in a consistent store an edit succeeds exactly if there is such a client, the new one has a key, and its email is none, the old one or free |
| PanelClientEffects.InboundDeleted | 3x-ui/web/service/inbound.go:235-276 | exactly the inbound and its rows go |
| PanelPublishing.UnusedRowPublished | 3x-ui/web/service/xray.go:63-163 | a client with a new row that has not expired is published by the next configuration if and only if its inbound is enabled then and it is not switched off |
| PanelPublishing.AddedClientPublished | 3x-ui/web/service/xray.go:63-163 | so it is for whoever is added to an inbound |
| PanelPublishing.AddedInboundPublished | 3x-ui/web/service/xray.go:63-163 | and for the clients of a new inbound |
| PanelRuns.RunConsistent | 3x-ui/web/service/inbound.go:154-775 | over any run of the operations and ticks without the three excluded calls, every client with an email has one row with its expiry, quota and renewal period, and every such row a client |
| PanelRuns.RunFromEmpty | 3x-ui/web/service/inbound.go:154-775 | the same from the empty tables of a new installation on |
| PanelRuns.RunDistinct | 3x-ui/web/service/inbound.go:110-152 | over any run of these operations, without condition, no two clients share an email |
| PanelCounters.ProcessTraffic | 3x-ui/xray/api.go:207-231 | assigns the value to the tag's entry, creating it with the direction seen first; the tag api is skipped |
| PanelCounters.ProcessClientTraffic | 3x-ui/xray/api.go:233-248 | assigns the value to the user's entry |
| PanelCounters.ReadCounters | 3x-ui/xray/api.go:194-203 | each entry holds the last value of either direction |
| PanelCounters.MapToSlice | 3x-ui/xray/api.go:250-256 | the slice lists every entry of the map exactly once, in any order |
| PanelCounters.GetTraffic | 3x-ui/xray/api.go:194-204 | what accounting finds for a user is what the counters say, and each tag but api has one entry, in whatever order they are listed |
| PanelCounters.OnlyCounterCounts | 3x-ui/xray/api.go:233-248 | with one counter per user and direction that counter is the user's traffic |
| PanelCounters.ChargedWithOwn | 3x-ui/xray/api.go:194-231 | an inbound is charged with what it reported itself if and only if the first counter of its tag and the last of the direction are its own, or those of an outbound make no difference |
| PanelCounters.UnsharedIsOwn | 3x-ui/xray/api.go:194-231 | a tag that no outbound shares is charged right, in any order of the counters |
| PanelCounters.CountersReachInbounds | 3x-ui/web/service/inbound.go:777-797 | if every inbound's counters are its own, each one grows by what it reported, and with distinct tags the totals agree |
| PanelCounters.TickReachesInbounds | 3x-ui/web/service/inbound.go:733-797 | the same through a whole committed tick |
| PanelCounters.SharedTagMixes | 3x-ui/xray/api.go:207-231 | an inbound and an outbound of one tag are mixed: the inbound gets the outbound's traffic or, in the other order, nothing |

## Left out

- VueDiff.UpdateChildren: removal is immediate, `removeOnly` is false, patching a pair of nodes is "the new node takes the old element", and creating is "a fresh element before the reference"; transitions, hooks, components and text nodes are not modelled.
- VueDeps.Tracker.Evaluate: the getter is a list of touches and nested evaluations; computed values, schedulers, errors thrown by getters and a teardown in the middle of an evaluation are not modelled (`Teardown` itself says what a touch still in progress keeps).
- JsonParser.Parse: the lexer's regular expressions other than that of strings, the positions in messages and the error-recovery branch, which `parseError` always leaves by throwing.
- JsonSound.ParseSound: number texts stay text, partly built objects are values (the source shares them, but never through two stack entries that are read again), and the order of object properties is not kept.
- Wireguard.GeneratePublicKey: private keys of other lengths than 32, key generation, timing, the curve's group law and primality of 2^255 - 19; inversion is stated as a power.
- Base64.KeyToBase64: `btoa` and `atob` themselves; decoding is modelled by a standard decoder.
- PanelRestart.NoRequestLost: a process is its configuration and whether it runs; the template and the inbounds are read separately, everything else inside a restart is one step each. Changes applied through the Xray API and the process itself are not modelled.
- PanelConfig.GetXrayConfig: the template's sections, the stream settings and the text of the JSON are not modelled; clients are records with an email, and their other keys are dropped. Who occurs is stated for clients with an email and unless the row without email is disabled.
- PanelConfig.ListedIffEnabled: clients without an email, and a disabled row without one, are covered by `PanelConfig.ListedExactly` and `PanelConfig.RowsAreFilters` only.
- PanelPorts.InboundTable.RunAll: operations run one after the other; two handlers whose checks both precede both saves are not covered.
- PanelTraffic.Panel.AddTraffic: linear scans of loaded rows are lookups by the unique email, one step reads the clock once, settings have a client list, and integers do not overflow. The list of online users and the calls to the Xray API, with the restart they may ask for, are not modelled.
- PanelClients.InboundService.AddInbound: stats that an import supplies are outside the claim about both copies: what their save leaves of the rows is a parameter. The unique tag column is part of `PanelPorts` only.
- PanelTickLaws.FailedDisablingLeaves: the row without email, which several clients may share, is left out, and stores whose two copies disagree are, because there the start of a delayed expiry also depends on what the settings hold.
- PanelClients.InboundService.UpdateInboundClient: an empty request, which makes the source panic, is refused; the tables of client addresses are not modelled.
- PanelCounters.GetTraffic: counter names are already parsed.
- `UpdateInbound` keeps ports apart and is part of that model, but it checks no emails and does not update expiries of kept clients, so it is not among the operations on clients.
- Routing, sessions, the Telegram bot, translations, settings pages, logs, link texts, scripts and containers: input and output, or easy beside the parts above.
