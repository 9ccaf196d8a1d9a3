# A verified model of dig-dns

dig-dns is a local resolver for `.dig` names: a loopback DNS responder, a gateway that turns a host
name into a store, fetches the store's ciphertext from a node page by page, verifies and decrypts it
and serves it, and the machinery that installs the service and wires the operating system's resolver
to it. This project models those parts in Dafny and proves what they promise, over every input,
every node, every service manager, every file system and every interleaving.

`dafny verify dfyconfig.toml` checks all of it. There is one module for each component:

| module | component |
|---|---|
| `Dns`, `DnsRecords` | wire codec, answering policy, TCP framing, client probe and decoder; the records of replies, read back |
| `Label`, `Host`, `Tld` | store labels, host grammar, the three readings of "under the TLD" |
| `Node`, `Content`, `ByteRange`, `Gateway` | paged fetch, reassembly, integrity gate and chunked decryption, byte ranges, request handling |
| `Service`, `Config`, `Unit`, `Systemd`, `Staging` | reinstall machine, configuration, baked systemd unit and how systemd reads it, staging of the program |
| `OsConfig`, `Artifacts`, `AtomicWrite` | resolver plans over a file system, the files they write and their readers, the atomic file writer |
| `Ensure`, `Shutdown` | the race for the dig.local address, the shutdown flag |
| `Prelude`, `Text`, `Decimal` | octets, text and numerals shared by the others |

Conventions of the model:

- A Rust string is a sequence of characters, one for each UTF-8 octet; letter case is ASCII and
  trimming removes every Unicode whitespace character, in its UTF-8 form. `usize` is 64 bits wide.
- A node is a function from the calls made so far to its next reply, so it may answer anything and
  change its mind; a service manager likewise is a function from the trace so far. A failing file
  operation, a failing system call and a scheduler are arbitrary choices.
- SHA-256, Merkle folding, HKDF and the AEAD are the abstract fields of `Content.Crypto`. The only law
  used is that opening undoes sealing, and only where a seal is in play.
- Imperative code is a method with a loop, or a class whose methods update its fields, proved equal to
  a specification function; the laws are lemmas about that function.

## Where the code and its documentation differ

The model follows the code in each of these.

- The FORMERR reply is 10 octets, shorter than a DNS header (`Dns.FormErrReply`).
- The TCP length prefix is a cast to 16 bits. It is exact if and only if the full reply is below
  64 KiB; every request of at most 65513 octets is on that side, and a request of 65520 octets is not
  (`Dns.TcpFraming`, `Dns.TcpFramingFails`).
- The range parser says that it ignores a malformed header. An inverted range such as `bytes=5-3` is
  answered 416 instead, and a valid one with a number above 64 bits is ignored. Both are among what
  section 14.2 of RFC 9110 permits, which lets a server ignore any Range header and ignore or reject an
  invalid one; a specifier is taken at its word if and only if being inverted and exceeding 64 bits
  coincide (`ByteRange.RangeFollowsStandard`, `ByteRange.InvertedRangeIsRefused`,
  `ByteRange.HugeRangeIsIgnored`).
- Numbers in a range may carry a plus sign, and whitespace may follow `bytes=`, which the grammar of
  section 14.1 of RFC 9110 does not have; and a range unit with a capital letter, which it does have, is
  ignored. That is all (`ByteRange.SpelledInGrammar`, `ByteRange.SignedRangeIsRead`,
  `ByteRange.CapitalUnitIsIgnored`).
- The proxy script lower-cases by Unicode rules, everything else by ASCII's: a Kelvin sign stands for a
  `k` of the TLD in the script alone. Browsers hand scripts ASCII hosts, for which all readers agree
  (`Tld.ReadersAgree`, `Tld.KelvinIsRouted`).
- A host with a dot in front of its port is refused (`Host.DotBeforePortIsRefused`).
- Three configuration fields are not baked into the service, and the node override is baked trimmed;
  the configuration comes back unchanged if and only if those make no difference
  (`Config.SurvivesUnchanged`).
- The node override is written into the unit unescaped, and its validation lets blanks, quotes,
  backslashes and percent signs through. systemd takes it literally if and only if it has no blank, quote
  or backslash and no specifier (`Unit.TakenLiterally`, `Unit.BlankOverrideAssigns`).
- The atomic writer cleans up after a failed rename only. A failed run leaves its temporary file if and
  only if the write or the sync failed, or that cleanup did, and a write can succeed if and only if no
  temporary file is in the way (`AtomicWrite.LeavesTempExactly`, `AtomicWrite.SucceedsExactly`).
  Unconfiguring does not remove such a file (`OsConfig.ConfigureThenUnconfigure`).
- The prefix check says that each component must be a directory but does not look at that; a file at
  the end of the prefix passes it and fails the next step (`Staging.FilePassesPrefixCheck`).
- Staging from the staged copy itself unlinks that copy before reading it, and then fails
  (`Staging.Machine.Stage`).

## Model

| member | source | states |
|---|---|---|
| `Dns.ParseName` | src/dns.rs:112-130 | the label loop reads exactly the specified name and end position, and refuses a truncated label, a compression pointer and the reserved length bits |
| `Dns.Parse` | src/dns.rs:100-155 | the parser yields exactly the specified query, or nothing |
| `Dns.ParseOptUdpSize` | src/dns.rs:159-169 | the advertised size is read exactly when an OPT record with a root name follows the question |
| `Dns.TopBitsAreThresholds` | src/dns.rs:120-123 | testing the two top bits of a length octet by mask equals comparing the octet with 64 and 192 |
| `Dns.ReadNameIsEncoded` | src/dns.rs:112-130 | whatever is read as a name, anywhere in any message, is the encoding of the labels read, each of 1 to 63 octets |
| `Dns.EncodedNameIsRead` | src/dns.rs:112-130 | every encoded list of labels is read back as itself wherever it stands |
| `Dns.QuestionIsEncoded` | src/dns.rs:100-155 | the echoed question of any parsed request is the encoding of its labels, type and class |
| `Dns.EncodedQuestionIsRead` | src/dns.rs:100-155 | any encoded question parses back to its labels and type, whatever follows it |
| `DnsRecords.ParsesExactly` | src/dns.rs:100-155 | a request parses exactly when it counts a question and an encoded question stands behind its header |
| `DnsRecords.OptIsSeen` | src/dns.rs:159-169 | an advertised size is seen exactly when an additional record is counted and the head of a root-named OPT record of that size stands behind the question |
| `Dns.FlagsReadBack` | src/dns.rs:263-277 | the two flag octets give back opcode, AA, TC, RD and RCODE |
| `Dns.FlagBitsAreDisjoint` | src/dns.rs:263-277 | building the flags by or-ing masks equals building them as octet sums |
| `Dns.Build` | src/dns.rs:187-247 | the section-by-section builder produces exactly the composed reply |
| `Dns.Respond` | src/dns.rs:82-97 | the responder sends exactly the specified reply, and nothing for fewer than 12 octets |
| `Dns.ReplyEchoes` | src/dns.rs:187-247 | a parsed question comes back octet for octet at offset 12 under the same id, opcode and RD, with code and AA as the policy says |
| `DnsRecords.ReplyRecords` | src/dns.rs:187-297 | the counts of every reply, and its records by a reader of their own: an answer exactly when served and not cut, named by the question's own labels through its pointer, of type 1 and class 1 with the TTL and the address; a root-named OPT record of 4096 octets exactly under EDNS |
| `Dns.FormErrReply` | src/dns.rs:250-259 | a request that does not parse gets ten octets: its id, its opcode and recursion bit, no other flag, the code 1, and zeros |
| `Dns.ReplySize` | src/dns.rs:187-247 | a reply is at most 22 octets longer than its request; over UDP it is cut exactly when the full reply exceeds the advertised size, then has TC and no answer, and otherwise fits |
| `Dns.TcpFraming` | src/server.rs:220-238 | a client reads the reply back from its frame exactly when the full reply is below 64 KiB, which holds for every request of at most 65513 octets |
| `Dns.TcpFramingFails` | src/server.rs:220-238 | a request that fits a TCP frame whose reply's prefix wraps |
| `Dns.BuildAQuery` | src/dns.rs:302-317 | the probe is exactly the query for the non-empty labels of the name, each cut at 63 octets |
| `Dns.ProbeLabelsAre` | src/dns.rs:302-317 | the labels of a probe, piece by piece: none for an empty piece, else the piece up to 63 octets |
| `Dns.SkipName` | src/dns.rs:321-332 | the compression-aware skip yields exactly the position after the name |
| `Dns.ParseFirstA` | src/dns.rs:336-362 | the walk over questions and answers finds exactly the specified first A record |
| `DnsRecords.FirstAddressIsFound` | src/dns.rs:336-362 | the first address record is found behind any number of records of other kinds, and nothing where there is none |
| `Dns.ReplyDecodes` | src/dns.rs:336-362 | whatever the request and transport, the client decodes the reply to nothing or to the loopback address, and to the address exactly when the question parses, its last label is the TLD up to case, the type is A and nothing was cut |
| `Dns.ProbeIsRead` | src/dns.rs:302-317 | every probe parses as a request for the labels of its name |
| `Dns.ProbeRoundTrip` | src/dns.rs:302-362 | probe, responder and decoder end to end: the address comes back exactly when the last label asked for is the TLD |
| `Label.LabelRoundTrip` | src/label.rs:50-54 | an encoding is 52 characters of a-z2-7 and decodes to its id |
| `Label.LabelSpells` | src/label.rs:50-54 | which label an id has: digits of base 32 in the alphabet of RFC 4648 that, read as a number, are sixteen times the number the octets are |
| `Label.AcceptedLabel` | src/label.rs:72-85 | a label decodes to an id exactly when, lower-cased, it is the encoding of that id |
| `Label.SameIdSameLabel` | src/label.rs:72-85 | two accepted labels name the same id exactly when they differ only in case |
| `Label.LabelAccepted` | src/label.rs:72-85 | a label is accepted exactly when it has 52 alphabet characters and the last one carries no trailing bits |
| `Label.HexLabelRoundTrip` | src/label.rs:57-90 | the hexadecimal name of a store and its label convert into each other |
| `Label.HexSpells` | src/label.rs:88-90 | the hexadecimal form has two digits to an octet, the high one first |
| `Host.ParsesExactlyPrinted` | src/host.rs:56-94 | a host is read as a target exactly when its core is, up to case, the printed host of that target |
| `Host.AcceptedIsPrinted` | src/host.rs:56-94 | every accepted host is the printing of some target |
| `Host.PrintedHostParses` | src/host.rs:56-94 | a printed host in any case, bare, with a trailing dot or with a port, is read back as its target |
| `Host.PrintedForms` | src/host.rs:56-94 | a host's labels are the store's alone, or the root's in front of the store's |
| `Host.RefusalsAreExact` | src/host.rs:56-94 | each refusal, by what the host is: not under the TLD, a label missing, more than two labels, or one that is no store label; nothing else is refused |
| `Host.DotBeforePortIsRefused` | src/host.rs:59-61 | a dot in front of the port is refused as a foreign TLD |
| `Host.TwoDotsAreRefused` | src/host.rs:59-61 | one dot at the end is dropped, and a second one makes a foreign TLD |
| `Tld.ReadersAgree` | src/gateway.rs:111-116 | on every dotted name and safe TLD the DNS policy does not refuse exactly what the proxy guard admits, and the PAC script routes exactly that too unless the last label spells the TLD with a Kelvin sign |
| `Tld.GuardDropsPort` | src/gateway.rs:111-116 | the guard reads a name the same with any number of dots at its end and with any port |
| `Tld.PacReadsLastLabel` | src/pac.rs:24-41 | the PAC script routes a dotted name exactly when its last label, lower-cased as scripts do, is the TLD |
| `Tld.KelvinIsRouted` | src/pac.rs:24-41 | the Kelvin sign as a name under the TLD `k`: routed by the script, refused by the guard |
| `Tld.ProbeAgreesWithGuard` | src/dns.rs:172-184 | a DNS probe over TCP gets the loopback address exactly for the names the proxy guard admits |
| `Tld.AcceptedHostIsUnder` | src/host.rs:56-94 | any host that names a store passes the proxy guard |
| `Node.AssembleWindows` | src/node.rs:166-226 | the loop yields exactly the specified content, or the first defect in the code's order |
| `Node.AssemblesExactly` | src/node.rs:166-226 | windows are accepted exactly when the first carries proof, lengths and root, each a ciphertext, and only the last is complete; the content is then theirs, end to end |
| `Node.GatherWindows` | src/node.rs:199-219 | the loop over the windows yields their joined ciphertext or the first defect |
| `Node.CompleteRun` | src/node.rs:204-216 | windows that are incomplete up to a complete last one pass both completeness checks |
| `Node.NodeClient.GetAnchoredRoot` | src/transport.rs:186-191 | one call for the store, read as a root of 64 hexadecimal digits or refused |
| `Node.RootOf` | src/node.rs:149-160 | an accepted root has 64 hexadecimal digits |
| `Node.RootIsRead` | src/node.rs:149-160 | a root is read exactly from a reply that carries it as 64 hexadecimal digits, and an error is passed on |
| `Node.NodeClient.GetContent` | src/transport.rs:193-231 | the paging loop makes exactly the calls, and returns exactly the content, of the specified run |
| `Node.FetchIsBounded` | src/transport.rs:193-231 | against every node: at most 100000 calls, all for one request, at strictly increasing offsets from 0, and no completeness error out of reassembly |
| `Node.FetchEnds` | src/transport.rs:114-231 | a fetch ends with exactly what its last call was answered by when that was no window, as malformed after an incomplete one, and else with what its windows make |
| `Node.FetchHonest` | src/transport.rs:193-231 | a node that is honest about a resource in the calls of this fetch, at its window boundaries and within the cap, has it returned exactly when it has at most 100000 windows, and refused otherwise |
| `Content.CheckedTotal` | src/content.rs:148-167 | the checked running sum is the sum, or nothing when it overflows |
| `Content.OpenChunks` | src/content.rs:169-177 | the decryption loop opens exactly the pieces of the plan in order |
| `Content.VerifyAndDecrypt` | src/content.rs:120-182 | the method yields exactly the specified plaintext or the first failing check |
| `Content.AcceptedMeans` | src/content.rs:120-182 | a plaintext comes out only if the proof commits this ciphertext under the trusted root, the lengths partition it and each piece opens under the one key; it is those openings end to end |
| `Content.VerdictIs` | src/content.rs:120-182 | an integrity refusal exactly for content that is not committed under the root or not cut by its lengths; a decryption refusal exactly when a piece does not open under the key derived for store and resource; else the openings |
| `Content.BadPlanIsRefused` | src/content.rs:148-167 | past the gate, a plan whose lengths overflow or do not add up is refused |
| `Content.PiecesPartition` | src/content.rs:169-177 | the pieces have the plan's lengths and join to the ciphertext |
| `Content.DecryptInvertsSeal` | src/content.rs:120-182 | sealed chunks laid end to end with their lengths decrypt to the chunks laid end to end |
| `Content.DecryptInvertsOneSeal` | src/content.rs:120-182 | without lengths the whole ciphertext is one chunk and decrypts to it |
| `Content.PathNamesKey` | src/content.rs:56-70 | a path names a key exactly when it is that key with at most one slash in front, the key having no backslash, control character or dot piece, or names nothing and so the index; every other path is refused |
| `Content.ExtensionlessMeans` | src/content.rs:111-114 | extensionless means that every dot of the path has a slash behind it |
| `ByteRange.RangeIsInBounds` | src/gateway.rs:433-476 | a satisfiable result has start <= end < total, whatever the header |
| `ByteRange.ReadsExactlySpelled` | src/gateway.rs:433-476 | for every header: it is read as a range exactly when it spells a specifier in 64-bit numbers (`bytes=`, no comma, numerals around a dash), the range then has exactly that specifier's positions, and any other header gives the whole resource |
| `ByteRange.SpelledInGrammar` | src/gateway.rs:433-476 | a header in the standard's grammar is read exactly when its unit is in lower case, and a header that is read is in the grammar exactly when it has no plus sign and no whitespace after `bytes=` |
| `ByteRange.SignedRangeIsRead` | src/gateway.rs:433-476 | `bytes=+0-+4` is outside that grammar and is read as positions 0 to 4 |
| `ByteRange.CapitalUnitIsIgnored` | src/gateway.rs:433-476 | every specifier behind `Bytes=` is in the grammar and is ignored |
| `ByteRange.RangeFollowsStandard` | src/gateway.rs:433-476 | every printed specifier is answered as section 14.2 of RFC 9110 permits; it is taken at its word (delivered if valid, ignored if inverted) exactly when being inverted and exceeding 64 bits coincide |
| `ByteRange.InvertedRangeIsRefused` | src/gateway.rs:433-476 | `bytes=5-3` of ten octets is unsatisfiable rather than ignored |
| `ByteRange.HugeRangeIsIgnored` | src/gateway.rs:433-476 | a last position of 2^64 on ten octets gives the whole resource, where positions 5 to 9 were asked for |
| `Gateway.PieceResponse` | src/gateway.rs:371-418 | asking for one piece of a partition gives a 206 with that slice and its Content-Range |
| `Gateway.PiecesReassemble` | src/gateway.rs:371-418 | the bodies of the pieces of any partition join to the resource |
| `Gateway.BodyAnswers` | src/gateway.rs:371-418 | a plaintext is answered whole when no range is asked for, by exactly the selected positions when some are, and by 416 when none is; the headers name its type, and it is immutable exactly for a pinned host |
| `Gateway.FetchAndDecrypt` | src/gateway.rs:312-343 | the attempt's fate and calls are those of the specification: miss, unreachable, integrity failure or plaintext |
| `Gateway.FateIs` | src/gateway.rs:312-343 | what a fetch comes to: a miss for the two codes or symbols, else unreachable; an integrity failure exactly for unsound content; sound content a miss when a piece does not open, and else the openings |
| `Gateway.ServeFromStore` | src/gateway.rs:262-294 | the response and the calls are exactly those of the specified run |
| `Gateway.SpaOrNotFound` | src/gateway.rs:347-366 | the fallback asks for the index exactly on an extensionless path |
| `Gateway.RequestDiscipline` | src/gateway.rs:262-366 | a request in full: refused without a call when its path names no key; else the root call of a latest host, one paging run for the key the path names under the trusted root, one more for the index exactly after a miss on a path without extension; the last fetch decides: a plaintext is delivered, a miss is 404, an unreachable or inconsistent node 502 |
| `Gateway.ServedBytesAreVerified` | src/gateway.rs:262-366 | every 200 or 206 carries all of, or the requested slice of, a plaintext that the last fetch of this very request brought and that was accepted under its one trusted root |
| `Gateway.CallsOfRequest` | src/gateway.rs:262-366 | at most 200001 calls: the root call of a latest host, then content calls that all name the host's store and carry the one trusted root |
| `Gateway.Handle` | src/gateway.rs:172-230 | the whole request handler, control endpoints with their health probe included, produces exactly the specified response and calls |
| `Gateway.ContactIsExact` | src/gateway.rs:136-230 | every contact with the node, exactly: a read of the health document, unless it is a foreign proxy request, makes one health probe and reports its outcome; a read outside the reserved paths of an acceptable path of a host that spells a store makes at least one call, all naming that store; no other request makes any; a foreign proxy request is refused |
| `Gateway.ReadsAre` | src/gateway.rs:183 | the methods that read are GET and HEAD, in any case |
| `Gateway.OtherAnswers` | src/gateway.rs:136-230 | every answer that comes from no store: tunnels, foreign proxy requests, the reserved paths and their methods, hosts that spell nothing |
| `Gateway.HonestRead` | src/gateway.rs:172-418 | end to end: a plain read of a host that spells a store, against a node honest about sealed chunks under the trusted root, gives 200 with the chunks laid end to end |
| `Service.Manager.WaitForRemoval` | src/service.rs:173-188 | the poll makes exactly the specified probes and ends as specified |
| `Service.Manager.Reinstall` | src/service.rs:143-170 | the machine produces exactly the specified trace and result |
| `Service.EveryRunIsAStory` | src/service.rs:143-188 | against every service manager the trace and result are those of one of the listed stories: probe, then stop delete probes if present, then create and start |
| `Service.EveryStoryIsARun` | src/service.rs:143-188 | each of those stories is the run against some service manager |
| `Service.RunIsClean` | src/service.rs:143-188 | create comes only after a latest answer "absent", there are at most 40 removal polls, and each flag of a report is true exactly for the steps that succeeded |
| `Service.NeverAlreadyExists` | src/service.rs:143-188 | with truthful probes and no other registrar, create never meets a registered service |
| `Config.Validate` | src/config.rs:153-185 | the loop over the ports and the other checks report exactly the first broken invariant |
| `Config.FromEnv` | src/config.rs:259-306 | the field-by-field loader yields exactly the specified configuration or first error |
| `Config.LoadsExactly` | src/config.rs:193-306 | an environment loads to a configuration exactly when each field is what its variable says, or its default, and the configuration is valid |
| `Config.OverrideOrder` | src/config.rs:224-236 | the override comes from the first source that is not blank: flag, environment, file |
| `Config.IpRoundTrip` | src/service.rs:203-229 | a printed address parses back to itself |
| `Config.ConfigSurvivesInstall` | src/service.rs:194-239 | loading the baked environment of any valid configuration gives back the address, three ports, TLD, TTL and trimmed node override, the rest at defaults |
| `Config.SurvivesUnchanged` | src/service.rs:194-239 | it comes back unchanged exactly when the override is absent or non-blank without whitespace, Unicode's included, at either end, and the un-baked fields are at their defaults |
| `Unit.UnitRoundTrip` | src/service.rs:721-768 | reading the unit's Environment lines recovers the plan's pairs in order, for any fixed lines that are no assignments and any single-line values |
| `Unit.UnitIsTemplate` | src/service.rs:742-768 | the unit's own fixed lines, written out, are single lines and no assignments |
| `Unit.BakedUnitRoundTrip` | src/service.rs:721-768 | no value of a valid configuration can add a line to the unit: what is read back line by line is what was baked |
| `Unit.UnitLoads` | src/service.rs:731-735 | installation end to end: loading the configuration from the text of the unit, by variable name, gives the installed form of the configuration |
| `Unit.UnitRuns` | src/service.rs:742-768 | the unit's command line is the program with the argument that serves, and the unit is wanted at boot |
| `Unit.TakenLiterally` | src/service.rs:731-735 | systemd takes every setting literally, as one word that expands to itself, exactly when the node override has no blank, quote, backslash or specifier |
| `Unit.SystemdLoads` | src/service.rs:721-768 | with such an override, the environment systemd makes of the unit loads to the installed form of the configuration |
| `Unit.BlankOverrideAssigns` | src/config.rs:218-220 | an override with a blank passes validation, and systemd reads what follows the blank as a setting of another variable |
| `Staging.Machine.EnsurePrefixRootOwnedNotWritable` | src/service.rs:559-588 | it passes only a safe prefix, exactly those when no call fails of itself, and changes nothing |
| `Staging.FilePassesPrefixCheck` | src/service.rs:559-588 | a root-owned file at the end of the prefix is safe to the check, and nothing can be staged below it |
| `Staging.LinkIsNeverSafe` | src/service.rs:505-507 | a symbolic link never passes the ownership check |
| `Staging.WriteBits` | src/service.rs:505-507 | the ownership check looks at the owner, the group's write bit and the others' write bit |
| `Staging.ModeBits` | src/service.rs:623 | the mode that staging sets has every permission but the two write bits that are looked at |
| `Staging.Machine.CreateMissingIntermediates` | src/service.rs:596-626 | every creation finds its parent a directory and, unless a call failed of itself, its own name free; only directories above the leaf are added, and all are root's |
| `Staging.Machine.EnsureRealLeafDir` | src/service.rs:636-648 | the leaf ends as a real directory, a file or link in its place is unlinked, nothing else changes |
| `Staging.Machine.EnsureRootOwnedNotWritable` | src/service.rs:515-533 | it passes only what is root's, not writable by others and not a link |
| `Staging.Machine.PlaceCopy` | src/service.rs:692-696 | after an unchecked removal a successful copy is a file with the source's content or a link that was left; without faults, copying the destination onto itself fails and loses it |
| `Staging.Machine.InstallProgram` | src/service.rs:692-704 | success leaves a regular file of root's with the program's content; a link that survived the removal is caught |
| `Staging.Machine.Stage` | src/service.rs:666-704 | success means the whole chain is root's and the copy is the program; a refused prefix changes nothing; nothing off the chain ever changes; without faults it succeeds exactly when stageable |
| `OsConfig.FileSystem.WriteIfChanged` | src/os_config.rs:826-837 | it succeeds exactly when the content is seen in place or the atomic write can succeed, then the file holds the content; no file but the path and its temporary file changes |
| `OsConfig.FileSystem.RemoveIfOurs` | src/os_config.rs:890-904 | the file goes away exactly when it can be read as text, the text is ours and it can be removed |
| `OsConfig.FileSystem.Execute` | src/os_config.rs:610-648 | the loop leaves exactly the specified files, leftover temporary files included, and report |
| `OsConfig.RemovalsAreExact` | src/os_config.rs:610-648 | a plan of removals takes away exactly its removable paths that are ours |
| `OsConfig.WritesAreExact` | src/os_config.rs:610-648 | in a plan whose writes concern different files, each write's path and temporary file end as that write alone would leave them |
| `OsConfig.WrittenIsOurs` | src/os_config.rs:321-325 | everything configuring writes is recognised as ours |
| `OsConfig.OursMeans` | src/os_config.rs:321-325 | ours is a text with the tool's marker or the installer's, or the bare resolver line |
| `OsConfig.UnconfigureIsExact` | src/os_config.rs:566-606 | unconfiguring removes exactly the plan's paths whose content is ours |
| `OsConfig.UnconfigureTouches` | src/os_config.rs:566-606 | what unconfiguring may take away, by path, on each OS |
| `OsConfig.ConfigureWires` | src/os_config.rs:496-563 | what configuring is for: when no write can fail, exactly the file of the detected owner is written, or on macOS the alias daemon and the resolver file, and its reader takes the address and the TLD back out |
| `Artifacts.ResolvedIsRead` | src/os_config.rs:114-116 | the drop-in's section names the address and the routed TLD |
| `Artifacts.DnsmasqIsRead` | src/os_config.rs:119-121 | the dnsmasq rule is the TLD and the address |
| `Artifacts.ResolverFileIsRead` | src/os_config.rs:125-127 | the resolver file names the address |
| `Artifacts.PlistIsRead` | src/os_config.rs:157-181 | the only array of the property list is the alias command with the address |
| `OsConfig.ConfigureThenUnconfigure` | src/os_config.rs:496-606 | from none of the plan's paths present, configure then unconfigure is the identity exactly when no write failed leaving its temporary file and all that was written can be read and removed |
| `OsConfig.ConfigureIsQuiet` | src/os_config.rs:496-563 | configuring changes no file exactly when each write finds its content in place, leaving no temporary file if it cannot see that, or fails without a trace |
| `OsConfig.ConfigureIsIdempotent` | src/os_config.rs:496-563 | configuring again changes nothing: always when the same process meets the same faults, and otherwise exactly when each write is quiet on what the first run left |
| `OsConfig.UnconfigureIsIdempotent` | src/os_config.rs:566-606 | unconfiguring again changes nothing: always under the same faults, and otherwise exactly when nothing of ours that had to be left can be removed now |
| `OsConfig.ReportsMatch` | src/os_config.rs:610-648 | the report lists exactly the contents in place that could be seen or were written, and the files that went away |
| `AtomicWrite.TargetIsOldOrNew` | src/os_config.rs:847-881 | at every point of every run the target holds its old state or the whole new content, nothing but the temporary file changes besides, success leaves no temporary file, failure leaves the target |
| `AtomicWrite.RunKeepsInv` | src/os_config.rs:847-881 | at each step the files stand as the step's place says: untouched, a growing temporary prefix, a full temporary copy, or the new target |
| `AtomicWrite.StaleTempRefuses` | src/os_config.rs:862-873 | with a temporary file already there every run fails and changes nothing |
| `AtomicWrite.LeftoverIsPrefix` | src/os_config.rs:862-873 | a temporary file left behind holds a beginning of the content |
| `AtomicWrite.LeavesTempExactly` | src/os_config.rs:862-877 | a failed run leaves a temporary file exactly when one was there before, or the write or sync is what failed, or the cleanup after a failed rename failed too |
| `AtomicWrite.FailedWriteLeavesTemp` | src/os_config.rs:862-873 | a run whose write fails, after which no run of the same process on that target succeeds |
| `AtomicWrite.SucceedsExactly` | src/os_config.rs:847-881 | some run succeeds exactly when the path has a file name and no temporary file is in the way |
| `AtomicWrite.RunsEnd` | src/os_config.rs:847-881 | every finished run ends as one of: the content in place, nothing changed, or a beginning of the content in the temporary file |
| `AtomicWrite.EndsAreRuns` | src/os_config.rs:847-881 | each of these ends is the end of some run |
| `AtomicWrite.RunCanSucceed` | src/os_config.rs:847-881 | without faults and without a stale temporary file some run succeeds |
| `Ensure.OneHolder` | src/server.rs:370-390 | in every interleaving at most one process holds the address, and a loop holds it exactly while it serves |
| `Ensure.RunKeepsLoop` | src/server.rs:398-486 | in every run each loop's place determines its last own step (start, failed client, probe, bind, wake-up), whether it holds the address and, once ended, that it was mapped or stopped |
| `Ensure.BindsOnlyUnanswered` | src/server.rs:370-390 | a loop binds only right after its own probe went unanswered; a grant means nobody held the address |
| `Ensure.AnsweredIsFinal` | src/server.rs:470-486 | after an answered probe the loop takes no further step |
| `Ensure.EndsOnlyMappedOrStopped` | src/server.rs:470-486 | a loop that was not told to stop ends only after a probe answered while another process held the address |
| `Ensure.KeepsUntilStopped` | src/server.rs:398-461 | a granted address is kept until the service is told to stop |
| `Ensure.StopsSoon` | src/server.rs:470-486 | once told to stop, a loop takes at most four more steps in any interleaving, and can take one until it has ended |
| `Shutdown.FlagReachesEveryTask` | src/server.rs:323-364 | no wake-up is lost: once the sender is done every subtask, subscribed before or after, is never stuck and stops after at most four of its own steps |
| `Shutdown.NoneStopsEarly` | src/server.rs:362-364 | no subtask stops before the flag was sent |
| `Shutdown.RunKeepsInv` | src/server.rs:323-364 | in every run a parked waiter has been woken once the sender is done, and every waiter still waiting has seen only the unset flag |

## Left out

- Sockets, HTTP and TLS: what a listener, a connection or an HTTP library does, time-outs, and the byte-for-byte relay of the dig.local proxy are not modelled.
- Encrypted upstream resolution (`src/secure_dns.rs`), the node discovery ladder (`resolve`, `candidate_bases`) and port fallback: first-success loops that would only add easy members.
- Cryptography: hashes, Merkle proofs, key derivation and the AEAD are abstract, so nothing is said of how hard they are to break.
- JSON and base64 text: a window is a record of optional fields with its octets already decoded.
- Wording: error messages, the health document (only what it says of the node is modelled), the PAC text (only its routing rule is), and the media-type table.
- DNS limits the code does not enforce: names are not capped at 255 octets and advertised sizes below 512 are not raised, in the code and in the model.
- `Unit.TakenLiterally`: of systemd's escapes only their sizes are modelled, its specifiers are a parameter, and the joining of a line that ends in a backslash with the next is left out; such an override is not plain in any case.
- `OsConfig.FileSystem.Execute`: commands, PowerShell and registry steps have no effect on files, and directories that a write creates are not files; the browser policy, the activation check and elevation are absent.
- Detection of the resolver's owner: every plan is proved for every owner instead.
- `Staging.Machine.Stage`: what lies behind a symbolic link is outside the tree, so an operation through a link has an arbitrary outcome and its effect there is not modelled; the name of the program directory is a parameter.
- `Shutdown.FlagReachesEveryTask`: the waiting protocol is that of a versioned watch channel; closing the channel by dropping its sender is not modelled.
- `Ensure.StopsSoon`: accepting connections while serving is not a step of the loop, so nothing is said of how long one lasts.
- Command line, summaries, doctor probes, packaging and Windows service glue: presentation, text constants or platform calls.
