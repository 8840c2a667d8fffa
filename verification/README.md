# Resource-identifier codec of go-sourcegraph

This project models, in Dafny, the part of the Sourcegraph API client that names resources in
URL routes. A repository, a repository at a revision and a delta between two revisions are
structured identifiers. Each one is written into a route-variable map (string keys, string
values) and read back from such a map:

- `RepoSpec` (`repo_spec.dfy`): a repository is named by its numeric ID as `"R$"` and the
  decimal ID, or else by its URI. `ParseRepoSpec` reads the token back, and
  `UnmarshalRepoSpec` reads it from the `"RepoSpec"` entry.
- `RepoRevSpec` (`repo_rev_spec.dfy`): adds a `"Rev"` entry, which holds the revision or
  `revision "===" commit ID`. The reader splits this token at the first `"==="`.
- `DeltaSpec` (`delta_spec.dfy`): the base's entries plus a `"DeltaHeadRev"` entry.
  - When both sides name the same repository, that entry is the head's revision token.
  - Otherwise it is the padded URL-safe base64 (section 5 of RFC 4648) of the head's
    repository token, then `':'`, then the head's revision token.
- Two small functions that come with deltas:
  - the classification of a changed definition as added, changed or deleted
    (`def_delta.dfy`);
  - the overall diffstat of a delta's files (`diff_stat.dfy`).

The supporting modules are:

- `GoStrings` (`gostrings.dfy`): Go strings as byte sequences, route maps, `strings.HasPrefix`
  and `strings.Index`.
- `Strconv` (`strconv.dfy`): `strconv.Itoa` and `strconv.Atoi`.
- `Base64Url` (`base64url.dfy`): Go's `base64.URLEncoding`.
- `Results` (`results.dfy`): the error values.

Writing follows Go's panics:

- It is only defined under a precondition (`Encodable`).
- Reading returns `Err` for the inputs the source rejects.

Where the source's comments or design describe something the code does not do, the model
follows the code. `RepoSpec.PathComponent` tests `HasPrefix("sourcegraph.com/", uri)`, with the
arguments in that order. So a URI such as `"sourcegraph.com/x"` is written unchanged, not
shortened to `"x"`. The branch that shortens the URI is reached only by a URI that is a prefix of
`"sourcegraph.com/"`:

- The exact string `"sourcegraph.com/"` gives the empty token, which then fails to read back.
- Any shorter non-empty prefix would slice out of range and panic, so `Encodable` excludes it.

The round-trip lemmas state exactly which identifiers survive writing and reading.

## Model

| member | source | states |
|---|---|---|
| `RepoSpecs.PathComponent` | sourcegraph/repositories.go:124-136 | A positive ID gives "R$" followed by its canonical decimal: digits only, no leading zero, and Atoi reads it back as that ID. Otherwise the URI is written as is, except that the URI "sourcegraph.com/" gives the empty token. Requires the inputs that do not panic. |
| `RepoSpecs.RouteVars` | sourcegraph/repositories.go:140-142 | The map has exactly the key "RepoSpec", holding the path component. |
| `RepoSpecs.ParseRepoSpec` | sourcegraph/repositories.go:147-164 | Fails exactly on the empty token, or an "R$" token whose rest is not a signed decimal. The empty token gives the empty-spec error, and a malformed "R$" token gives Atoi's syntax error naming the text after "R$". "R$" gives an ID and no URI. Any other token is a URI: one starting with "sourcegraph/" gains the "sourcegraph.com/" host, and the rest are kept unchanged with ID 0. |
| `RepoSpecs.UnmarshalRepoSpec` | sourcegraph/repositories.go:169-171 | Reads the "RepoSpec" entry, where a missing key reads as the empty token and so as the empty-spec error. |
| `RepoSpecs.PathComponentRoundTrip` | sourcegraph/repositories.go:124-164 | Parsing the path component gives the spec back if and only if one of two cases holds. Either the ID is positive and the URI is empty, or the ID is 0 and the URI is non-empty, starts with neither "R$" nor "sourcegraph/", and is no prefix of "sourcegraph.com/". |
| `RepoSpecs.RouteVarsRoundTrip` | sourcegraph/repositories.go:140-171 | The same condition for the route-map round trip. |
| `RepoSpecs.PathComponentIgnoresUri` | sourcegraph/repositories.go:125-127 | With a positive ID, the URI does not affect the path component. |
| `RepoSpecs.HomeOwnerUriGainsHost` | sourcegraph/repositories.go:157-158 | A URI starting with "sourcegraph/" is written unchanged but read back with "sourcegraph.com/" in front, so it does not round-trip. |
| `RepoSpecs.SwappedPrefixTest` | sourcegraph/repositories.go:128-133 | "sourcegraph.com/x" is written unchanged. "sourcegraph.com/" is written as the empty token, which reads back as the empty-spec error. "sourcegraph.com" cannot be written. |
| `RepoSpecs.TestUrisRoundTrip` | sourcegraph/repositories_test.go:51-52 | "src:///a/x" and "src:///x" can be written and round-trip. |
| `RepoSpecs.TestTableRoundTrips` | sourcegraph/repositories_test.go:13-42 | "src:///a.b/x" and "src:///x" parse to URI specs, and both round-trip through the route map. |
| `Strconv.Itoa` | sourcegraph/repositories.go:126 | A positive number's decimal has digits only and no leading zero. A negative one has '-' and then digits. |
| `Strconv.Atoi` | sourcegraph/repositories.go:152 | Succeeds exactly on an optional sign followed by one or more digits, and otherwise gives a syntax error naming the input. A '-' gives a value of at most 0, and an unsigned or '+' token a value of at least 0. |
| `Strconv.DigitsValueOfNatDigits` | sourcegraph/repositories.go:126 | The digits written for a natural number read back as that number. |
| `Strconv.AtoiItoa` | sourcegraph/repositories.go:126-152 | Atoi reads Itoa's decimal back as the same number, for every integer. |
| `RepoRevSpecs.RevPathComponent` | sourcegraph/repositories.go:227-235 | Gives the revision when there is no commit ID, and otherwise revision "===" commit ID. Requires a non-empty revision whenever a commit ID is set. |
| `RepoRevSpecs.RouteVars` | sourcegraph/repositories.go:217-221 | The map has exactly the keys "RepoSpec" and "Rev": the repository's path component and the revision token. |
| `RepoRevSpecs.SplitRevToken` | sourcegraph/repositories.go:247-253 | Splits at the first "===": the revision part is as long as strings.Index says, holds no "===", and the token is the revision, "===" and the commit ID. Without a separator, the whole token is the revision and the commit ID is empty. |
| `RepoRevSpecs.UnmarshalRepoRevSpec` | sourcegraph/repositories.go:240-260 | Propagates the repository error. Fails exactly when the repository fails or the split gives an empty revision with a non-empty commit ID. On success, the revision and commit ID are the split of the "Rev" entry at its first "===", and the result equals DecodeTokens of the two entries. |
| `RepoRevSpecs.DecodeTokens` | sourcegraph/repositories.go:241-259 | A repository-token error is passed on as it is. Otherwise the revision token is split at the first "===", and an empty revision with a non-empty commit ID is the empty-revision error naming that ID. |
| `RepoRevSpecs.UnmarshalReadsTwoKeys` | sourcegraph/repositories.go:240-260 | The result depends only on the "RepoSpec" and "Rev" entries. |
| `RepoRevSpecs.SeparatorIsFirst` | sourcegraph/repositories.go:231-232 | The first "===" of the revision token is the one written after the revision, provided the revision holds no "===" and does not end in '='. |
| `RepoRevSpecs.RevTokenRoundTrip` | sourcegraph/repositories.go:227-253 | Splitting the revision token gives back the revision and commit ID if and only if two things hold: the revision holds no "===", and it does not end in '=' when a commit ID is set. |
| `RepoRevSpecs.RouteVarsRoundTrip` | sourcegraph/repositories.go:217-260 | The route-map round trip holds if and only if the repository round-trips and the revision round-trips. |
| `RepoRevSpecs.RevisionRRoundTrips` | sourcegraph/repositories.go:217-260 | A round-tripping repository at revision "r" comes back from its route map with any commit ID. |
| `RepoRevSpecs.TestTableRoundTrips` | sourcegraph/repositories_test.go:51-68 | For any non-empty commit ID: the three specs of the test come back from their route maps, and the one with the commit ID has the revision token "r===" followed by the ID. |
| `RepoRevSpecs.SplitExample` | sourcegraph/repositories.go:179-182 | "master===af4cd6" splits into "master" and "af4cd6". |
| `GoStrings.Index` | sourcegraph/repositories.go:248 | strings.Index: -1 exactly when the separator does not occur; otherwise an occurrence with none before it. |
| `GoStrings.IndexOfSeparatorAfter` | sourcegraph/deltas.go:76-92 | A one-character separator placed after a string that lacks it is found right there. |
| `Base64Url.Encode` | sourcegraph/deltas.go:76 | Every character is in the URL-safe alphabet or is '='. |
| `Base64Url.Decode` | sourcegraph/deltas.go:96-99 | Accepts only alphabet and padding characters, and every failure is a corrupt-input error. |
| `Base64Url.DecodeEncode` | sourcegraph/deltas.go:76-96 | Decoding inverts encoding for every byte string. |
| `Base64Url.EncodeLength` | sourcegraph/deltas.go:76 | The encoding has four characters for each started group of three bytes. |
| `Base64Url.DecodeLength` | sourcegraph/deltas.go:96 | Only whole four-character quanta decode, to as many bytes as an encoding of that length carries. |
| `Base64Url.EncodeHasNoColon` | sourcegraph/deltas.go:76-92 | The encoding never contains ':'. |
| `Base64Url.KnownAnswerRepoPath` | sourcegraph/deltas.go:76 | "r.com/y" encodes as "ci5jb20veQ==". |
| `Base64Url.KnownAnswerUrlSafe` | sourcegraph/deltas.go:76 | The bytes 0xFB 0xFF encode as "-_8=", using the URL-safe characters. |
| `DeltaSpecs.EncodeCrossRepoRevSpec` | sourcegraph/deltas.go:75-77 | The first ':' is right after the base64 segment. That segment is the base64url encoding of the head's repository token and decodes back to it. The rest is the head's revision token. |
| `DeltaSpecs.RouteVars` | sourcegraph/deltas.go:64-73 | The keys are exactly "RepoSpec", "Rev" and "DeltaHeadRev", and the first two are the base's own entries. "DeltaHeadRev" is the head's revision token in one repository and the cross-repository token otherwise. |
| `DeltaSpecs.UnmarshalDeltaSpec` | sourcegraph/deltas.go:82-116 | A base error is returned as it is, and on success the base is what the base entries decode to. With no ':' in the head token, the head is decoded from the "RepoSpec" entry and the whole head token, so its repository is the base's. With a ':', bad base64 before the first ':' is a corrupt-input error, and otherwise the head is decoded from the decoded bytes and the rest of the token. A head error is returned as the whole result. |
| `DeltaSpecs.BaseDecodes` | sourcegraph/deltas.go:65-85 | The base decodes from the delta's map as from its own map. |
| `DeltaSpecs.CrossRepoRoundTrip` | sourcegraph/deltas.go:70-106 | Across repositories the delta comes back if and only if both sides round-trip on their own. |
| `DeltaSpecs.SameRepoColonMisread` | sourcegraph/deltas.go:67-113 | In one repository, a ':' in the head's revision token sends it down the cross-repository path, and the delta does not come back. |
| `DeltaSpecs.SameRepoRoundTrip` | sourcegraph/deltas.go:67-113 | In one repository the delta comes back if and only if three things hold: the base round-trips, the head's revision round-trips, and the head's revision token holds no ':'. |
| `DeltaSpecs.EmptyHeadRepoFails` | sourcegraph/deltas.go:92-104 | The head token ":v2" has an empty base64 segment, which decodes to the empty repository token, so the decode fails with the empty-spec error. |
| `DeltaSpecs.EmptyHeadRevFails` | sourcegraph/deltas.go:107-111 | The head token "===x" gives a commit ID without a revision, so the decode fails with that error. |
| `DeltaSpecs.SameRepoExample` | sourcegraph/deltas.go:67-68 | "r.com/x" from "v1" to "v2": the head token is "v2" and the delta comes back. |
| `DeltaSpecs.CrossRepoHeadToken` | sourcegraph/deltas.go:75-77 | "r.com/y" at "v2", seen from another repository, has the head token "ci5jb20veQ==:v2". |
| `DeltaSpecs.CrossRepoExample` | sourcegraph/deltas.go:64-116 | The delta from "r.com/x" at "v1" to "r.com/y" at "v2" carries that head token and comes back. |
| `DeltaSpecs.SpecOf` | sourcegraph/deltas.go:129-134 | Delta.DeltaSpec keeps the base and the head. |
| `DefDeltas.Classify` | sourcegraph/deltas.go:184-192 | The tag is Addition, Change or Deletion exactly when Added, Changed or Deleted holds. There is no tag exactly when both sides are missing. |
| `DefDeltas.ToDefDelta` | sourcegraph/deltas.go:184-192 | Every tagged state has a side present, and its tag matches Added or Deleted. |
| `DefDeltas.ClassificationExclusive` | sourcegraph/deltas.go:184-192 | At most one of Added, Changed and Deleted holds, and one holds exactly when a side is present. |
| `DefDeltas.ClassifyRoundTrip` | sourcegraph/deltas.go:184-192 | Classification and ToDefDelta are inverse on every state with a side present. |
| `DiffStats.TotalAppend` | sourcegraph/deltas.go:263-268 | The componentwise total of two lists of files is the sum of their totals. |
| `DiffStats.DiffStat` | sourcegraph/deltas.go:261-270 | The result is the componentwise sum of the files' stats, and zero for no files. |

## Left out

- The service methods (`Get`, `List*`, `Create`, `Refresh*` and the rest) and the mock
  services: HTTP plumbing through the client's URL builder and request sender.
- The option and settings structs: they hold data and no logic.
- `Badge.HTML` and `Counter.HTML`: thin wrappers over `text/template` HTML escaping, which is
  not part of this model.
- sourcegraph/util.go (pointer-allocation helpers) and sourcegraph/defs_test.go (HTTP tests
  against a mock server).
- The route maps expected at sourcegraph/repositories_test.go:51-53. They use the keys "Repo"
  and "CommitID", which `RepoRevSpec.RouteVars` never writes. Only the specs on those lines are
  used, and the test's `commitID` constant is not part of this model, so
  `RepoRevSpecs.TestTableRoundTrips` takes any non-empty commit ID. `SpecString`, used at
  sourcegraph/repositories_test.go:28, is not part of this model.
- `Base64Url.Decode`: does not skip '\r' and '\n' as Go's decoder does, and does not carry the
  offset of the corrupt input in its error.
- `Strconv.Atoi`: has no 64-bit range error. Every signed decimal is read as an unbounded
  integer, and `Itoa` writes any integer.
- `DiffStats.DiffStat`: go-diff's `Stat` fields are 32-bit integers, and their wrap-around is not
  modelled. The sums are unbounded. Each file's `Stat()` is taken as an input, because go-diff
  is not part of this model.
- `DeltaSpecs.SpecOf`: the commit, repository and build records of a `Delta` are one opaque
  `details` value, because the codec never reads them.
- The panic in `RepoSpec.PathComponent` and `RepoRevSpec.RevPathComponent` is modelled as a
  precondition, not as a behaviour.
