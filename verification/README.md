# Verified model of the go-adldap core

go-adldap drives Active Directory over LDAP. This project models the parts of it whose
correctness is hard to see by reading, in Dafny, and proves what they promise. One module
stands for one source component; where the Go code changes state step by step there is a
method or a class proved against a specification function, and the theorems are about that
function.

- **The security-descriptor editor** (`internal/secdesc`, `acl.go`, `ou.go`). `Descriptor`
  parses and prints a self-relative SECURITY_DESCRIPTOR, `Dacl` splits and rebuilds the entry
  list, `Ace` encodes and decodes entries. `Protection`, `DeniedObject` and `AceEdits` are the
  four edits; each refines an operation on the list of opaque entries, `Edits` proves what
  any sequence of them keeps, and `Denials` that the two readers of a denied right agree. `Principals`, `Acl`, `AclLaws` and `Ou` are the operations built
  on top. Every result about written descriptors rests on one hypothesis, `Dacl.Fits`: the
  list fits the DACL's 16-bit size field. `Dacl.RewrittenReadsBack` shows that this condition
  is exact, because the Go code truncates without checking, and `Dacl.WrittenListReads` what a
  list of any size reads back as.
- **The connection pool and its retrying caller** (`internal/conn/pool.go`, `exec.go`,
  `internal/ldaperr/classify.go`). `PoolMachine` is a small-step machine, one step per mutex
  section, channel operation, dial, bind or close, taken by any goroutine in any order. `Pool`
  holds the pool and its leases as objects whose methods are runs of that machine past whatever
  the other goroutines hold, and `WithConn` the retry loop on those objects. `Retry` is that loop
  apart from what one attempt does, and `Ldaperr` decides what may be retried.
- **Ranged retrieval** (`ranged.go` against `internal/adtest/memory.go`): `Ranged`.
- **The in-memory directory** (`internal/adtest`): `Filter` is the string-level filter
  evaluator against a meaning by syntax tree, `Wildcard` the greedy substring matcher, and
  `Exactness` says when a printed comparison finds exactly what it asks for, `SidLookup` that a lookup
  by SID does, with `GoFolding` and `Utf8` for what Go makes of bytes that are no text. `MoveDN` is the subtree move on any directory
  (with `Relocation`, the part of its proof that is about maps only), and `Subtree` what it means
  for directories whose names are written in one way.
- **The codecs** (`internal/attrs`, `internal/secdesc/rights.go`): `Sid`, `Guid`, `Integers`,
  `Rights`.
- `Wrappers`, `Bytes`, `Lists` and `Text` are shared definitions, `Text` being the operations
  of Go's standard library that the code rests on.

How values are compared in any case is a parameter of the filter evaluator (`Wildcard.Folding`), so
its results hold for Unicode's tables as well as for ASCII; where a result needs more of it than that,
the lemma says so. Bytes are integers below 256 in sequences, words are integers with their bounds and every
conversion that truncates is written out. Strings are sequences of characters that stand for
bytes. A 32-bit access mask is the set of its bit positions; `Rights.WordsAndBits` and
`Rights.NamesKeepTheWord` tie the two views together. Nil and empty slices are one value.

## Results that differ from what one might expect

- Where a DACL would not fit its size field the edits still report success, and the descriptor
  they write cannot be read back as what was written (`Dacl.RewrittenReadsBack`,
  `Dacl.WrittenListReads`). `SetProtected` then breaks its promise exactly when there is no room
  for its one entry (`Protection.SetThenIsProtected`).
- `SetDeniedObjectRight` counts matching entries, not trustees. `DeniedObject.DenyingCoversExactly`
  gives the exact condition under which every trustee ends up denied, and
  `DeniedObject.CountHidesMissingTrustee` a family of inputs on which one is left out. The comment
  on `deniedObject` suggests that an entry without an object type covers every type; the code
  answers no, and the model follows the code (`DeniedObject.UntypedEntryDeniesNoType`).
- `SIDToString` accepts SIDs that `SIDFromString` refuses: the round trip holds exactly up to
  fifteen sub-authorities (`Sid.TextRoundTrip`).
- `withConn` with no attempts to spend returns nil without running anything (`WithConn.NilExactly`),
  and an error of this library's own without an LDAP result inside is classified as a transport
  failure whatever its kind was (`Ldaperr.OwnErrorsBecomeTransport`).
- A value is read as RFC 4515 reads it, for every entry, exactly when none of its stars is escaped:
  escaping a `*` does not keep the evaluator from taking it for a wildcard
  (`Filter.EscapedStarExactly`). A value with `:=` in it is taken for an extensible match and compared
  with what is left of it; `Exactness.ComparisonExactly` says for which values the answer is the one meant.
- The lookup by GUID always finds the GUID asked for (`Filter.BinaryLookupFinds`), and others with it: the byte
  0x2A is escaped, unescaped and then read as a wildcard, letters are compared in any case, and all bytes that
  are not valid UTF-8 are taken for one another. With the folding of ASCII it finds exactly what it asks for
  exactly when no byte is a star or a letter (`Exactness.BinaryLookupExactly`); with Go's own, exactly when the
  GUID has no star and is valid UTF-8 of runes that have no other case (`GoFolding.GoLookupExactly`).
  `Exactness.OtherGuidIsFound` and `GoFolding.OtherGuidIsFound` give the other GUID, of the same length.
- Values stored under another spelling of an attribute's name are read as none by the ranged
  read (`Ranged.OtherSpellingReadsEmpty`).
- A move checks the target's own name and no name below it. `MoveDN.MovesExactly` gives, for any directory at
  all, the exact condition under which it loses nothing in every iteration order. Where names are written in
  one way, that is when no descendant's new name is held by an entry that stays and every new name stays put when
  the iteration comes to it (`Subtree.LosslessExactly`); `Subtree.OrphanIsLost` gives, for any two places
  apart, a directory the check lets through that loses an entry, and `Subtree.BeneathItselfNeverSettles`
  the other failure, a move to a place beneath the entry itself.
- A move cuts as many characters from a descendant's name as the moved name has, whatever the spaces around
  their commas: `MoveDN.LandsAsMeantExactly` says when that is the right place, and
  `MoveDN.SpacedChildIsGarbled` is a family of names for which it is not.

## Model

| member | source | states |
|---|---|---|
| Descriptor.StatedLength | internal/secdesc/secdesc.go:56-77 | the stated length of a part is that of the one prefix that states itself, whatever follows; for a SID, the one front that SIDToString accepts |
| Descriptor.Put | internal/secdesc/secdesc.go:124-145 | one part appended and its offset patched into the header, zero for an absent part |
| Descriptor.Serialize | internal/secdesc/secdesc.go:124-145 | the buffer patched part by part is the whole self-relative layout: header, ACLs, SIDs |
| Descriptor.ParseOfSerialized | internal/secdesc/secdesc.go:78-145 | parsing a printed descriptor cuts every part at its own stated length, whatever the lengths of the others |
| Descriptor.ParseInvertsSerialize | internal/secdesc/secdesc.go:78-145 | the printed form reads back as the same descriptor exactly when it is self-relative and every part is whole |
| Descriptor.ParsedIsWellFormed | internal/secdesc/secdesc.go:78-123 | whatever is accepted, with overlapping or reordered parts too, is well formed |
| Descriptor.SerializeKeepsWhatWasParsed | internal/secdesc/secdesc.go:78-145 | normalising any accepted descriptor loses nothing the parser saw |
| Descriptor.ParseExactly | internal/secdesc/secdesc.go:78-122 | what is accepted and as what, byte by byte: a header, the self-relative bit, and four fields that point at parts as long as they state |
| Descriptor.PrintedHeader | internal/secdesc/secdesc.go:124-145 | the header written, field by field: zero for an absent part, else where it starts |
| Descriptor.PrintedParts | internal/secdesc/secdesc.go:124-145 | SACL, DACL, owner and group follow one another without gaps |
| Dacl.SplitAces | internal/secdesc/secdesc.go:146-167 | the loop over variable offsets returns the entry list or the first error it meets |
| Dacl.BuildACL | internal/secdesc/secdesc.go:168-184 | the ACL written is header, 16-bit truncated size and count, then the entries |
| Dacl.AcesLayout | internal/secdesc/secdesc.go:146-167 | every entry split out states its own length and lies where it was found |
| Dacl.AcesInvertsBuild | internal/secdesc/secdesc.go:146-184 | splitting undoes building exactly when every entry states its own length and the count fits |
| Dacl.AcesExactly | internal/secdesc/secdesc.go:146-167 | what is accepted and as what: exactly the counted entries, each as long as it states, end to end behind the header |
| Dacl.BuiltHeader | internal/secdesc/secdesc.go:168-184 | the eight header bytes written, the reserved ones zero |
| Dacl.OtherFlagsStay | internal/secdesc/secdesc.go:274-274 | an edit turns the DACL-present bit of the control word on and leaves each of the other fifteen as it is |
| Dacl.ReadFacts | internal/secdesc/secdesc.go:243-285 | a list that was read is made of whole entries and fits |
| Dacl.EditedReads | internal/secdesc/secdesc.go:243-285 | a list that fits reads back, with everything outside the DACL kept |
| Dacl.WrittenListReads | internal/secdesc/secdesc.go:146-184 | what a written list of any size reads back as: its first entries by the truncated count, exactly when the truncated size covers them (in descriptors within 4 GiB) |
| Dacl.RewrittenReadsBack | internal/secdesc/secdesc.go:168-184 | an edit reads back as the list it wrote exactly when that list fits the size field |
| Protection.ProtectedBytes | internal/secdesc/secdesc.go:206-285 | after protecting, the entries read back are the twenty bytes of the Deny, for this object only, then the old ones |
| Protection.ProtectingEveryone | internal/secdesc/secdesc.go:42-43 | the trustee of those bytes is S-1-1-0 |
| Protection.ProtectedExactly | internal/secdesc/secdesc.go:185-242 | IsProtected is true exactly when some entry of type 1 denies everyone DELETE or DELETE_TREE, in terms of its bytes and bits |
| Protection.IsProtected | internal/secdesc/secdesc.go:220-242 | true exactly when some entry of the list is a protection entry |
| Protection.SetProtected | internal/secdesc/secdesc.go:243-285 | protection entries are dropped, one is put in front when wanted, and nothing is written when the state is right already |
| Protection.SetThenIsProtected | internal/secdesc/secdesc.go:220-285 | IsProtected of the result is what was asked for exactly when there was room |
| Protection.SetProtectedIsIdempotent | internal/secdesc/secdesc.go:243-285 | a change is reported exactly from the other state; asking again changes nothing |
| Protection.ProtectThenUnprotect | internal/secdesc/secdesc.go:243-285 | protecting puts one Deny in front and lifting restores the old entry list |
| DeniedObject.FindTrustee | internal/secdesc/secdesc.go:361-381 | an entry matches exactly when it denies the right to one of the trustees |
| DeniedObject.HasDeniedObjectRight | internal/secdesc/secdesc.go:361-381 | true exactly when some entry matches |
| Denials.DeniesExactly | internal/secdesc/secdesc.go:312-341 | for a whole SID any entry denies exactly when it is of type 6 and decodes to that denial |
| Denials.HasDeniedExactly | internal/secdesc/secdesc.go:361-381 | HasDeniedObjectRight is true exactly when some entry of type 6 decodes to a denial to one of the trustees |
| Denials.QueryIsWhatIsDecoded | internal/secdesc/secdesc.go:361-381 | on what DecodeACEs can read the query and the decoded entries never disagree |
| Denials.WrittenDenial | internal/secdesc/ace.go:172-210 | an entry encoded from its decoded form, with an inherited type or without, denies exactly what it says |
| Denials.DenyBytes | internal/secdesc/secdesc.go:343-353 | the bytes written to deny one trustee |
| Denials.DeniedInFront | internal/secdesc/secdesc.go:382-432 | a denying call that changes anything leaves those bytes for each trustee in front, in order, then the other entries |
| DeniedObject.DropMatched | internal/secdesc/secdesc.go:382-432 | the loop keeps the entries that match nobody, in order, and counts the others |
| DeniedObject.NewEntries | internal/secdesc/secdesc.go:382-432 | what is left alone and what is written, by the count of matching entries |
| DeniedObject.SetDeniedObjectRight | internal/secdesc/secdesc.go:382-432 | the edit on descriptors: nothing, or the new list under a revision of at least 4 |
| DeniedObject.DenyAceDenies | internal/secdesc/secdesc.go:313-360 | a written Deny is recognised exactly for a non-zero mask, a whole object type and a trustee it starts with |
| DeniedObject.SetThenHas | internal/secdesc/secdesc.go:361-432 | HasDeniedObjectRight of the result is the state asked for; denying needs a recognisable rule unless it was settled |
| DeniedObject.SecondCallSettles | internal/secdesc/secdesc.go:382-432 | after a change an identical call changes nothing, exactly for lifting or a recognisable rule |
| DeniedObject.MatchedIsTotal | internal/secdesc/secdesc.go:382-432 | double counting: matching entries are the denials of each trustee added up |
| DeniedObject.Pigeonhole | internal/secdesc/secdesc.go:410-417 | with at most one denial each, as many entries as trustees leave nobody out |
| DeniedObject.DenyingIsExact | internal/secdesc/secdesc.go:382-432 | with no trustee a prefix of another and none denied twice, each ends up denied exactly once, other entries kept in order |
| DeniedObject.DenyingCoversExactly | internal/secdesc/secdesc.go:382-432 | every trustee ends up denied exactly when the count did not coincide by accident |
| DeniedObject.CountHidesMissingTrustee | internal/secdesc/secdesc.go:410-417 | one trustee denied twice hides that another, which does not start it, is not denied |
| DeniedObject.DeniedToEachExactly | internal/secdesc/secdesc.go:361-432 | on descriptors: after the call HasDeniedObjectRight is true of each trustee alone exactly when the count did not coincide by accident |
| DeniedObject.MissingTrusteeStaysAllowed | internal/secdesc/secdesc.go:361-432 | on descriptors: with one trustee denied twice the call reports no change, and the right is not denied to the other |
| DeniedObject.TwiceDenied | internal/secdesc/secdesc.go:168-184 | there are such descriptors, around any other content |
| DeniedObject.WholeSidsSeparable | internal/secdesc/secdesc.go:56-66 | distinct whole SIDs of any lengths are told apart, so the exactness results hold of them |
| DeniedObject.UntypedEntryDeniesNoType | internal/secdesc/secdesc.go:313-341 | an entry without an object type denies no right on a given one |
| Ace.DecodeOfEncoded | internal/secdesc/ace.go:73-210 | what decoding gives for any encoded entry, error or cut trustee included |
| Ace.DecodeInvertsEncode | internal/secdesc/ace.go:73-210 | the codec round-trips exactly the entries with a whole SID and absent or 16-byte GUIDs |
| Ace.DecodedIsEncodable | internal/secdesc/ace.go:73-143 | everything decoded is encodable, so reading, writing and reading again is stable |
| Ace.ReencodeDecoded | internal/secdesc/ace.go:73-210 | re-encoding never grows an entry and reproduces exactly the canonical ones |
| Ace.PlainBytes | internal/secdesc/ace.go:172-210 | the bytes of an entry without a GUID |
| Ace.ObjectBytes | internal/secdesc/ace.go:172-210 | the bytes of an entry with one GUID or both, and the flags word that says which |
| Ace.OthersAreSkipped | internal/secdesc/ace.go:73-93 | an entry is skipped exactly when its type is none of the four |
| Ace.DecodeFailsExactly | internal/secdesc/ace.go:73-143 | decoding fails exactly for entries too short for their header, flags word, GUIDs or SID |
| Ace.DecodedFlags | internal/secdesc/ace.go:73-99 | flags, mask and kind as read from the bytes; the fifth flag bit marks an inherited entry |
| AceEdits.DecodeACEs | internal/secdesc/ace.go:44-72 | the loop lists the entries it models, in order, or the first error |
| AceEdits.AclRevisionFor | internal/secdesc/ace.go:215-228 | 4 exactly when the list holds an object entry |
| AceEdits.AddACEs | internal/secdesc/ace.go:229-254 | the encoded entries are appended to the list |
| AceEdits.DropMatching | internal/secdesc/ace.go:255-283 | the loop keeps what does not decode to an explicit matching entry, and knows whether it dropped any |
| AceEdits.RemoveACEs | internal/secdesc/ace.go:255-283 | the removal on descriptors; nothing is written when nothing was dropped |
| AceEdits.AddThenDecode | internal/secdesc/ace.go:44-254 | what is decoded after an add is the old decoded list followed by the added entries |
| AceEdits.RemoveThenDecode | internal/secdesc/ace.go:44-283 | what is decoded after a removal is the old list without the explicit matching entries |
| AceEdits.AddThenRemove | internal/secdesc/ace.go:229-283 | removing exactly what was added restores the entry list byte for byte |
| Edits.ApplyReads | internal/secdesc/secdesc.go:243-432 | each of the four edits refines its operation on the entry list |
| Edits.SparedSurvive | internal/secdesc/ace.go:229-283 | entries an edit neither drops nor writes come through byte for byte, in order |
| Edits.RunKeepsDescriptor | internal/secdesc/secdesc.go:243-432 | over any sequence of edits everything outside the DACL stays, every control bit but DACL-present too, that bit is set by any change, and the revision stays acceptable for object entries |
| Edits.RevisionLeft | internal/secdesc/secdesc.go:269-272 | the DACL revision each edit leaves |
| Edits.RunSparesForeign | internal/secdesc/secdesc.go:243-432 | over any sequence of edits every entry none of them targets survives byte for byte, in order |
| Edits.ProtectionSparesDenials | internal/secdesc/secdesc.go:243-381 | a protection edit leaves the answer about a denied right alone |
| Edits.DenialsSpareProtection | internal/secdesc/secdesc.go:220-432 | a denial edit leaves the answer about protection alone |
| Principals.BuildPrincipalSD | internal/secdesc/principals.go:63-98 | the descriptor of the principals, or the first that is not exactly one SID |
| Principals.PrincipalSIDs | internal/secdesc/principals.go:99-130 | the trustees of the plain allow entries, in order |
| Principals.AdminsExtendDomain | internal/secdesc/principals.go:26-44 | the owner is the domain SID extended by RID 512 |
| Principals.AdminsBytes | internal/secdesc/principals.go:26-44 | the owner's bytes: one sub-authority more, 512 |
| Principals.PrincipalBytes | internal/secdesc/principals.go:46-98 | what the descriptor reads back as: control 0x8004, Domain Admins twice, an ACL of revision 2 and one entry of 0x000F01FF each |
| Principals.PrincipalsRoundTrip | internal/secdesc/principals.go:26-130 | building succeeds exactly for whole SIDs with room for the RID, and names the same principals exactly when the entries fit |
| Rights.RightsMask | internal/secdesc/rights.go:75-94 | the union of the first table entry of each name, or the first unknown name |
| Rights.MaskExactly | internal/secdesc/rights.go:75-94 | there is a mask exactly when every name is known, in any case and with space around it, and it has the bits of all of them |
| Rights.TableNames | internal/secdesc/rights.go:44-67 | the names of the table, in the order of their masks |
| Rights.RightsNames | internal/secdesc/rights.go:104-121 | the two loops yield the taken names in table order |
| Rights.TakenExactly | internal/secdesc/rights.go:104-121 | a name is taken exactly when its bits are in the mask and no larger taken name uses one of them |
| Rights.TakenDisjoint | internal/secdesc/rights.go:104-121 | taken names never share a bit |
| Rights.NamesKeepTheMask | internal/secdesc/rights.go:75-121 | the mask of the names of a mask is its named bits, for every mask |
| Rights.NamesKeepTheWord | internal/secdesc/rights.go:75-121 | as words: the mask and 0x011F01FF |
| Rights.RenderingIsStable | internal/secdesc/rights.go:75-121 | the names of the mask of the names are the same names |
| Rights.WordsAndBits | internal/secdesc/rights.go:44-67 | a 32-bit word and its bit positions determine each other |
| Rights.TableWords | internal/secdesc/rights.go:17-67 | the bit sets of the table are the masks of the source, composites included |
| Rights.TableAscends | internal/secdesc/rights.go:37-67 | the table is ordered by value, as the descending walk needs |
| Acl.Get | acl.go:58-92 | the decoded entries that can be shown, in order |
| Acl.CollectKeys | acl.go:182-189 | the keys of the explicit rules and no others |
| Acl.CollectMissing | acl.go:191-201 | what is not there yet in binary form, or the first rule that has none |
| Acl.Grant | acl.go:169-216 | the descriptor Grant writes, if any |
| Acl.Revoke | acl.go:224-267 | the descriptor Revoke writes, if any; every rule is validated first |
| AclLaws.DecodedTrusteeFormats | acl.go:69-76 | every decoded trustee formats, so the branches that skip an entry are never taken |
| AclLaws.WrittenFlags | internal/secdesc/ace.go:153-168 | the flags byte of each inheritance, which reads back as it |
| AclLaws.ReadFlags | internal/secdesc/ace.go:137-152 | what every flags byte reads as |
| AclLaws.BinaryExactly | acl.go:97-127 | a rule has a binary form exactly when each field has one, and what that is |
| AclLaws.ShownExactly | acl.go:68-90 | a decoded entry as it is shown, field by field |
| AclLaws.GuidShown | acl.go:22-34 | a GUID is shown as its text, and as nothing exactly when it is absent or zero |
| AclLaws.BinaryIsEncodable | acl.go:97-127 | what decode accepts is an explicit entry the codec round-trips |
| AclLaws.ShownRuleIsStable | acl.go:58-127 | a rule as Get shows it, written again, is shown the same |
| AclLaws.RevokeRemovesExactly | acl.go:224-267 | after Revoke, Get shows the old rules without the explicit ones whose key was named |
| AclLaws.RevokedKeysAreGone | acl.go:224-267 | no explicit rule with a named key is left |
| AclLaws.GrantAppends | acl.go:169-216 | after Grant, Get shows the old rules and then the missing ones |
| AclLaws.SecondGrantWritesNothing | acl.go:163-216 | a second Grant writes nothing when each rule's key survives being written |
| AclLaws.GrantIsIdempotentExactly | acl.go:163-216 | for any list a second Grant writes nothing exactly when every key is one that was there or one of a rule the first wrote |
| AclLaws.GrantThenRevoke | acl.go:169-267 | revoking what was granted gives the old entry list back when none of it was there before |
| Ou.Entry.SetProtection | ou.go:73-112 | the descriptor is the edited one on success and untouched on failure, and exactly when it succeeds |
| Ou.Entry.MoveTo | ou.go:236-256 | protection is lifted before the move, and only then; it succeeds exactly when the requests made do |
| Ou.Entry.Rewrite | ou.go:258-269 | the write that restores the protection succeeds exactly when its requests do and there is room, and then reads back as wanted |
| Ou.Entry.Restore | ou.go:258-269 | a success reads back as protected as wanted, and exactly when there is one |
| Ou.Entry.Reshape | ou.go:227-269 | the entry list left by a success, and exactly when there is one; a move of a protected unit never grows its DACL and fails only if a request does |
| Ou.Entry.Update | ou.go:191-270 | it succeeds exactly when the requests it makes are answered, the descriptor reads, the containers compare and an added protection has room; then name, container, description, protection and the exact entry list |
| Ou.EditReadsExactly | ou.go:73-112 | an edit that changes the protection reads back, and as wanted, exactly when there was room |
| Ou.LiftedFacts | ou.go:241-269 | lifting leaves the unit unprotected and makes the room that restoring needs |
| Ou.FinalListFacts | ou.go:227-269 | foreign entries are kept in order and the list protects as wanted |
| Ou.MovedList | ou.go:241-269 | a protected unit that stays protected ends with one leading Deny, the foreign entries and no larger list |
| Ou.LiftAndRestoreFit | ou.go:241-269 | neither write of a lift and restore overflows or grows the DACL |
| PoolMachine.EveryRunIsSafe | internal/conn/pool.go:53-136 | every invariant holds in every state of every interleaving |
| PoolMachine.RoomForOneMore | internal/conn/pool.go:67-80 | a dial is decided only when nothing is idle, so the permits bound it |
| PoolMachine.StepSound | internal/conn/pool.go:53-136 | idle and leased connections stay bound ones that never failed at transport level |
| PoolMachine.NotShared | internal/conn/pool.go:53-136 | no two goroutines hold one connection and none holds an idle or closed one |
| PoolMachine.NeverMoreThanSize | internal/conn/pool.go:53-136 | in every reachable state the connections open plus the dials under way are at most the size |
| PoolMachine.NothingLeaks | internal/conn/pool.go:94-136 | when all goroutines are out no permit is missing, and after Close every connection has been closed exactly once |
| PoolMachine.HandedOutIsSound | internal/conn/pool.go:53-88 | whatever is handed out was bound and never failed at transport level |
| PoolMachine.BrokenNeverReturns | internal/conn/pool.go:113-118 | after a transport failure on a connection no later state has it idle or leased |
| PoolMachine.OnlyTheSemaphoreBlocks | internal/conn/pool.go:53-118 | past the semaphore every goroutine's next step is enabled and brings it nearer to being out |
| PoolMachine.EveryoneCanFinish | internal/conn/pool.go:76-87 | no reachable state is a deadlock even if everything from there on fails |
| PoolMachine.ReachesIsSafe | internal/conn/pool.go:53-136 | whatever is a run of the machine keeps every invariant; each call of the pool, its leases and withConn is one, from any state of the other goroutines |
| Pool.ConnPool.constructor | internal/conn/pool.go:45-50 | a new pool is the machine's start, of size 4 unless told otherwise |
| Pool.ConnPool.Acquire | internal/conn/pool.go:53-88 | the outcome and every field after each branch, and a run of the machine whatever the others hold; every failure gives the permit back |
| Pool.ConnPool.LookAtIdle | internal/conn/pool.go:60-72 | the mutex section: the last idle connection, unless the pool is done or has none |
| Pool.ConnPool.DialAndBind | internal/conn/pool.go:76-87 | the second half, outside the mutex: a connection that does not bind is closed |
| Pool.ConnPool.DrainAll | internal/conn/pool.go:129-135 | the loop of Close closes what was idle, in order, one step at a time |
| Pool.ConnPool.Close | internal/conn/pool.go:122-136 | what was idle is closed once, in order, and the pool is done |
| Pool.Lease.Release | internal/conn/pool.go:94-109 | the connection is pooled, or closed after Close; a second call does nothing |
| Pool.Lease.Discard | internal/conn/pool.go:113-118 | the connection is closed and the permit returned; a second call does nothing |
| WithConn.RunAndReturn | exec.go:67-74 | a lease is returned exactly once: discarded after a transport failure, released otherwise |
| WithConn.RunOnce | exec.go:49-74 | one attempt: its outcome and every field of the pool after it, as a run of the machine |
| WithConn.WithConn | exec.go:47-86 | the loop is the attempts from the first on: what is reported, every run and the pool left, as one run of the machine past the other goroutines |
| WithConn.RunsAtMost | exec.go:41-86 | at most MaxAttempts runs, all but the last transient failures |
| WithConn.NilExactly | exec.go:47-86 | nil exactly after a last run that succeeded, or with no attempt to make |
| WithConn.CutExactly | exec.go:47-86 | the backoff's error exactly after a transient failure with attempts left whose wait was cut |
| WithConn.AnotherAttempt | exec.go:47-86 | after a transient failure with attempts left and a finished wait another attempt is made: it runs, or its failure to get a connection is what is reported |
| WithConn.ConnectionsComeBack | exec.go:43-74 | no permit is kept and every connection that failed at transport level is closed, over the whole loop |
| WithConn.FirstAttemptRuns | exec.go:49-66 | with an attempt to make, the operation runs exactly when the pool is open and hands out or makes a connection |
| WithConn.FirstFailure | exec.go:50-65 | what is reported when the first attempt gets no connection: transport for a cancelled wait or a closed pool, else what the refused dial or bind says |
| WithConn.AcquireKindExactly | exec.go:51-63 | a server's answer decides; without one a rejected credential is a denial and everything else a transport failure |
| WithConn.AcquireFailureKinds | exec.go:50-65 | a failed acquire is reported as transient only when the server itself said busy |
| Retry.AnotherFollows | exec.go:47-86 | for any attempt whatever, a transient run with attempts left and a finished wait is followed by another attempt |
| Retry.RunsAreBounded | exec.go:47-86 | for any attempt whatever, only transient failures are repeated and the runs are bounded |
| Retry.BackoffCutExactly | exec.go:77-85 | for any attempt whatever, exactly when a cut wait is what is reported |
| Ldaperr.ExtractWin32Code | internal/ldaperr/classify.go:24-41 | the leading eight hex digits before a colon, or none |
| Ldaperr.CodeIsTheLeadingHex | internal/ldaperr/classify.go:21-41 | a diagnostic carries a code exactly when it starts with its eight hex digits, in any case, and a colon |
| Ldaperr.Classify | internal/ldaperr/classify.go:46-105 | the kind stamped on every failure; what no table lists is unknown |
| Ldaperr.ClassifiedExactly | internal/ldaperr/classify.go:70-105 | a cancellation anywhere decides first, then the outermost answer in the chain, else it is a transport failure |
| Ldaperr.ResultKinds | internal/ldaperr/classify.go:44-69 | the kind of every result code whose answer carries no Win32 code |
| Ldaperr.PrintedCodeDecides | internal/ldaperr/classify.go:24-105 | an answer whose diagnostic prints a code is classified by that code, however it is wrapped and whatever it wraps |
| Ldaperr.OwnErrorsBecomeTransport | internal/ldaperr/classify.go:73-84 | any error without a server's answer in its chain is a transport failure, whatever kind the operation gave it |
| Ldaperr.OwnErrorKeepsItsKind | internal/ldaperr/classify.go:73-105 | an error the operation made keeps the kind it gave exactly when that is the kind of its cause, or it has none and says transport |
| Ldaperr.WrappingKeepsTheKind | internal/ldaperr/classify.go:73-84 | wrapping an error keeps its kind unless the wrapping is a cancellation |
| Ranged.RangePages | internal/adtest/memory.go:232-267 | each requested attribute past the limit is re-keyed as the page asked for |
| Ranged.FindRangedAttr | ranged.go:64-89 | the key found and whether it is the last page, in whatever order the map is scanned |
| Ranged.KeyReadsBack | ranged.go:64-89 | a printed page key is read back for what it says: only "*" marks the last page |
| Ranged.KeyInAnyCase | ranged.go:64-89 | and in any case of its letters |
| Ranged.Wording | ranged.go:22-30 | the texts that pages are asked for and answered with |
| Ranged.ProjectedExactly | internal/adtest/memory.go:196-231 | which attributes a request selects |
| Ranged.StartOtherwise | internal/adtest/memory.go:232-267 | a start that is missing or no number is read as 0 |
| Ranged.AnswerIsThePage | internal/adtest/memory.go:196-267 | each request gets exactly its slice of the values, and the client knows whether it is the last |
| Ranged.RangedValues | ranged.go:19-55 | the loop terminates and returns exactly the attribute's values for every page limit and scan order |
| Ranged.OtherSpellingReadsEmpty | ranged.go:64-89 | whatever an entry stores under other cases of the name comes with the answer and is read as none |
| Filter.UnescapeFilterValue | internal/adtest/handlers.go:285-305 | the loop decodes each complete escape and leaves everything else alone |
| Filter.UnescapeInvertsPrint | internal/adtest/handlers.go:285-305 | unescaping undoes any mixture of literal and escaped characters |
| Filter.EscapeBinary | search.go:123-130 | every byte as backslash and two digits, which unescaping undoes |
| Filter.SplitTerms | internal/adtest/handlers.go:329-350 | the balanced terms at depth zero |
| Filter.TermsRecovered | internal/adtest/handlers.go:329-350 | splitting a printed conjunction gives back exactly the printed terms |
| Exactness.ComparisonExactly | internal/adtest/handlers.go:205-243 | the evaluator answers for a printed comparison what it means, on every entry, exactly when its value has no ":=", and for a SID exactly when it is not a lone star |
| SidLookup.SidLookupExactly | internal/adtest/handlers.go:229-237 | the lookup by SID finds exactly the entries that hold it, for every SID, every case of its text, every escaping and every entry |
| SidLookup.SidIsFound | internal/adtest/sid.go:57-63 | an entry that holds the SID is found under any folding |
| Filter.MatchIsEval | internal/adtest/handlers.go:182-243 | matching a printed filter is the filter's meaning, for every nesting, every entry and every case folding |
| Filter.OtherTexts | internal/adtest/handlers.go:182-206 | what texts that are no printed filter are answered with |
| Filter.BareOpenings | internal/adtest/handlers.go:182-206 | what empty lists, an empty negation and the openings alone are answered with |
| Filter.BodyWithoutEquals | internal/adtest/handlers.go:215-220 | a body without "=" matches nothing |
| Filter.ExtensibleReads | internal/adtest/handlers.go:209-214 | "attr:rule:=value" is answered as a comparison of the attribute with the value, whatever the rule |
| Exactness.OthersDecide | search.go:88-109 | under any folding the lookup by GUID is exact on every entry exactly when no other bytes match |
| Exactness.BinaryLookupExactly | search.go:88-109 | under ASCII folding the lookup finds exactly the entries that hold the GUID exactly when no byte of it is a star or a letter |
| Exactness.OtherGuidIsFound | search.go:88-109 | for a GUID with such a byte, another of the same length that is found in its place |
| GoFolding.GoLookupExactly | internal/adtest/handlers.go:249-255 | under Go's folding, for any table of cases, it is exact exactly when the GUID has no star and is valid UTF-8 of runes without another case |
| GoFolding.OtherGuidIsFound | internal/adtest/handlers.go:249-255 | for a GUID with a star or bytes that are no UTF-8, another of the same length that is found in its place |
| GoFolding.GoKeepsStars | internal/adtest/handlers.go:253-255 | lower-casing as Go does it keeps a pattern's wildcards |
| Filter.BinaryLookupFinds | search.go:91-109 | an entry that holds exactly those bytes is always found |
| Filter.LiteralExactlyWithoutStar | internal/adtest/handlers.go:249-257 | a comparison is for the value itself exactly when the raw value has no "*" |
| Filter.EscapedStarFindsTooMuch | internal/adtest/handlers.go:209-257 | a filter with an escaped star finds an entry whose value has no star |
| Filter.EscapedStarExactly | internal/adtest/handlers.go:209-257 | a comparison is read as RFC 4515 reads it, for every entry, exactly when no star in it is escaped |
| Filter.LookupInAnyOrder | internal/adtest/handlers.go:319-326 | the map's iteration order does not matter when no name has two spellings |
| Wildcard.FindMiddles | internal/adtest/handlers.go:269-278 | cutting the leftmost occurrence of each middle finds a split whenever one exists |
| Wildcard.MatchValue | internal/adtest/handlers.go:249-279 | true exactly when the value matches the pattern, by an independent character-level meaning and under any case folding |
| Wildcard.AsciiMatches | internal/adtest/handlers.go:249-257 | for ASCII the comparison without a wildcard and the one with it are one meaning |
| Wildcard.LeftmostWill | internal/adtest/handlers.go:269-278 | between stars the leftmost occurrence is as good as any |
| MoveDN.MemDirectory.ModifyDN | internal/adtest/memory.go:356-397 | the entry found, exactly when each answer is given, and the directory after the iteration |
| MoveDN.MemDirectory.Reparent | internal/adtest/memory.go:384-395 | the loop over the descendants, deleting and inserting as it goes |
| Subtree.VerdictIsDirectory | internal/adtest/memory.go:356-376 | the name check lets a move through exactly into what the theorems below start from |
| Subtree.NormalNeverPanics | internal/adtest/memory.go:387-395 | in a directory of normal names no iteration slices past a name |
| MoveDN.SubtreeMoves | internal/adtest/memory.go:356-397 | under any iteration order, revisits included, every descendant lands at its new name with its attributes, others stay, none is lost, if no two entries collide |
| MoveDN.MovesExactly | internal/adtest/memory.go:356-397 | for any directory: every covering iteration loses nothing exactly when every descendant's name can be cut and stays put and no two entries collide |
| MoveDN.LandsAsMeantExactly | internal/adtest/memory.go:387-395 | a descendant's new name is the one meant exactly when its name is cut behind a comma, up to spaces, with as many RDNs in front as it has below the moved entry |
| MoveDN.SpacedChildIsGarbled | internal/adtest/memory.go:387-395 | a child stored with a space after its name never is |
| Subtree.LosslessExactly | internal/adtest/memory.go:356-397 | for names written in one way: exactly when no new name is held by an entry that stays and every new name settles |
| Subtree.LosslessWhenApart | internal/adtest/memory.go:356-397 | for a target apart from the entry each single iteration loses nothing exactly when no new name is held |
| Subtree.ClashLoses | internal/adtest/memory.go:387-395 | a descendant whose new name is held costs one entry in every iteration that comes to it |
| Subtree.OrphanIsLost | internal/adtest/memory.go:373-395 | for any two places apart, a directory the name check lets through and that loses an entry |
| Subtree.BeneathItselfNeverSettles | internal/adtest/memory.go:387-395 | a move beneath the entry itself moves its descendants again each time the iteration comes to them |
| Subtree.NamesStayNormal | internal/adtest/memory.go:356-397 | a move leaves every name without spaces around its commas |
| Subtree.NamesStayUnique | internal/adtest/memory.go:356-397 | after such a move no name has two spellings exactly when no new name was an old one respelled, so moves can follow one another |
| MoveDN.AttributesGoAlong | internal/adtest/memory.go:377-395 | after the whole move every other attribute of every entry, the objectGUID included, is unchanged at its new name |
| MoveDN.NamesRecorded | internal/adtest/memory.go:377-395 | every moved entry records its new name, and the moved one the value of its RDN |
| MoveDN.NormalParts | internal/adtest/server.go:206-212 | a name is normal exactly when both sides of any of its commas are |
| MoveDN.IsUnderExactly | internal/adtest/server.go:214-221 | a name is under another exactly when its last RDNs are those of it |
| MoveDN.EqualFoldExactly | internal/adtest/server.go:202-212 | two names are one exactly when they are RDN by RDN |
| Relocation.EveryoneMoves | internal/adtest/memory.go:387-395 | an iteration that comes to every key, in any order and however often, moves them all and loses none |
| Sid.SIDToString | internal/attrs/attrs.go:61-81 | the text of an exact SID, mixed endianness included, or an error |
| Sid.SIDFromString | internal/attrs/attrs.go:216-248 | the bytes of an accepted text, or the first error in its order of checks |
| Sid.TextRoundTrip | internal/attrs/attrs.go:61-248 | text and back is the identity exactly on SIDs of at most fifteen sub-authorities |
| Sid.TextDecides | internal/attrs/attrs.go:61-81 | no two SIDs have one text, of however many sub-authorities |
| Sid.AcceptedTextNamesASid | internal/attrs/attrs.go:216-248 | whatever text is accepted names an exact SID whose own text names it too |
| Sid.AcceptedExactly | internal/attrs/attrs.go:216-248 | which texts are accepted: S, 8, 48 and at most fifteen times 32 decimal bits, joined by dashes |
| Sid.AcceptedBytes | internal/attrs/attrs.go:216-248 | and what the bytes of an accepted text are |
| Sid.WellKnownReads | internal/attrs/attrs.go:61-81 | a SID of a small authority and one sub-authority reads S-1-a-s, the one written for everyone included |
| Guid.UnhexAll | internal/attrs/attrs.go:44-51 | two digits a byte, or an error |
| Guid.GUIDToBytes | internal/attrs/attrs.go:39-58 | the stored bytes of an accepted text |
| Guid.TextRoundTrip | internal/attrs/attrs.go:25-58 | text and back is the identity on every 16-byte GUID |
| Guid.TextDigits | internal/attrs/attrs.go:25-37 | the digits of the text in the order of the stored bytes |
| Guid.ZeroTextExactly | internal/attrs/attrs.go:25-37 | only the GUID of zeros has the text of zeros |
| Guid.AcceptedSpellingIsNormalised | internal/attrs/attrs.go:25-58 | any accepted spelling becomes the dashed lower-case one with the same digits |
| Integers.EncodedRange | internal/attrs/attrs.go:83-111 | every representable time encodes in a fixed range, clear of both never values and of overflow |
| Integers.FileTimeCounts | internal/attrs/attrs.go:87-111 | the value written counts from 1601 |
| Integers.NeverExactly | internal/attrs/attrs.go:83-107 | which texts read as never and which as an error |
| Integers.DecodeOfEncodedTime | internal/attrs/attrs.go:83-111 | decoding drops less than 100 ns, toward the Unix epoch |
| Integers.StoredFileTimeRoundTrip | internal/attrs/attrs.go:83-111 | a stored FILETIME round-trips exactly when it is in that range |
| Integers.WordRoundTrip | internal/attrs/attrs.go:182-209 | every 32-bit word survives its signed decimal form |
| Integers.WordTextIs | internal/attrs/attrs.go:182-209 | the signed text of every word |
| Integers.SpacedWordReads | internal/attrs/attrs.go:190-209 | a word's text reads back with space around it |

## Left out

- Dialling, TLS, binds, Kerberos, NTLM and the go-ldap adapter: I/O; their outcomes are parameters of the methods that meet them.
- `adcore.CanonicalACEKey`, `adcore.ClassifyCode`, `adcore.ContainerOf`, `adcore.EqualFoldDN` and the RDN value of a DN are not part of this model; they are parameters, and every result holds for any of them.
- Unicode: trimming, and the case of DNs, hexadecimal digits and right names, are those of ASCII. The filter evaluator's case folding is arbitrary, and `GoFolding` is Go's over any table of cases; `Filter.EscapedStarExactly`, `Exactness.BinaryLookupExactly` and `Exactness.ComparisonExactly` speak of the ASCII one.
- Changes other directory clients make between a read and a write, and other goroutines taking steps while one call of `Pool.ConnPool` or `WithConn` runs: the call runs past whatever they hold meanwhile, and the interleavings are in `PoolMachine`.
- Pool.ConnPool.Acquire: the wait at a full semaphore is not a state of the object, because a method runs alone; `granted` says how the select ended.
- Ou.Entry.Update: the code does not restore anything after a failure, so the unit a failed update leaves is not described; when one fails is exact.
- Subtree.LosslessExactly: requires names without spaces around their commas and no two spellings of one name, which the code does not check (`Subtree.NamesStayUnique` says exactly when a move keeps the second, and `MoveDN.MovesExactly` needs neither); a panic on a stored name shorter than the moved one is modelled as an outcome.
- Filter.MatchIsEval: attribute names without filter syntax and values without raw parentheses, which the printers escape; an entry is a list in one iteration order of its map.
- The wording of error messages and the guidance `annotate` adds: errors are constructors.
- The lock around each descriptor operation, the read of the descriptor by identity and the skipped write of an unchanged one in `acl.go`: the model gives the descriptor that would be written.
- Create, Get, Search and Delete of users, groups, computers and service accounts, group types, encryption types, replication waits, tombstones and configuration checks: field mapping, small tables or wall-clock polling that add only easy members.
- The wire server, certificates and Add, Modify and Delete of the in-memory directory: short bodies over one entry.
