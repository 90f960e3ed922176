# Camlistore directory reader and Basic-auth gate, in Dafny

This project models two small sequential cores of Camlistore.

**The directory reader (`pkg/schema/dirreader.go`).** A directory is a
"directory" schema blob. Its `entries` ref names a "static-set" blob, and the
`members` of that blob list the directory's entries in order. `NewDirReader`
loads and checks the directory blob. `StaticSet` fetches the member list
lazily and caches it. `Readdir(n)` resolves a range of the members to
directory entries. The reader's mutable state `DirReader{staticSet, current}`
is an immutable record, `Schema.DirReader`. Each operation returns the next
state and its result as a `Schema.Step`.

The blob store is outside the model. A `Schema.Store` passed to every
operation holds three total functions:
- `valid` stands for `blob.Ref.Valid`;
- `load` stands for fetching a blob and JSON-decoding it. Its outcome is
  `FetchFailed`, `DecodeFailed` or `Decoded(superset)`;
- `resolveEntry` stands for `NewDirectoryEntryFromBlobRef`.

The goroutine fan-out of `Readdir` collects its channels strictly in launch
order, so it is modelled as an in-order sequential map that fails as a whole
(`Schema.ResolveAll`). `Schema.FanOut` is an imperative version with
separate launch and collect loops, proved equal to it.

**The auth package (`lib/go/camli/auth/auth.go`).** `FromConfig` picks
`DevAuth` or `UserPass` from a config string. `basicAuth` parses an HTTP
Basic `Authorization` header (section 2 of RFC 7617). Its token is standard
padded Base64 (section 4 of RFC 4648), and the decoded payload is split at its
first `:`. `IsAuthorized` of each mode compares the parsed credentials. Two
pieces of process-global state become parameters. The
`CAMLI_ADVERTISED_PASSWORD` variable is `advertisedPw`. A request is reduced
to its `Authorization` header, `None` when it has none. A Go string is a
`seq<char>` with one char per byte, each below 256. `GoStrings` models the
`strings.Split` and `strings.SplitN(s, ":", 2)` the code relies on. `Base64`
models the decoder. The regular expression `^Basic ([a-zA-Z0-9\+/=]+)` is
written out as a prefix matcher with a greedy token run and no end anchor.

Quirks of the code that the model keeps on purpose:
- The cursor `current` is only ever set to 0 (lines 53 and 121). A paginated
  `Readdir(n)` therefore returns the same page every time
  (`Schema.ReaddirRepeatsPage`).
- When the range is clamped, `io.EOF` is computed (line 125). It is then
  dropped by the successful return at line 162 (`Schema.ClampedPageSucceeds`).
- Valid members are appended to the cache before a later invalid member is
  found (lines 104-108). The failed call leaves that prefix cached, and the
  next call returns it as a success (`Schema.PartialCacheServedLater`).
- An empty member list leaves the cache nil, so it is fetched again on every
  call (`Schema.EmptyMembersNotCached`).
- `StaticSet`'s doc comment (dirreader.go line 84) says it returns the whole
  static set. After a failed call only a prefix is cached, and a later call
  returns that prefix. The model follows the code, not the comment.
- `Readdir` slices `sts[current:up]`, which panics when `current` is out of
  range. The model returns this panic as the `SlicePanic` error. Readers built
  by `NewDirReader` keep `current == 0` and never reach it
  (`Schema.ReaddirSeqNeverPanics`).
- The `len(pieces) < 1` branch of `FromConfig` is kept. It is unreachable
  because `GoStrings.Split` always returns at least one piece.

## Model

| member | source | states |
|---|---|---|
| Schema.SetFromBlobRef | pkg/schema/dirreader.go:68-82 | An invalid ref fails before any fetch. A fetch failure and a decode failure are reported as such. Otherwise the decoded superset is returned. |
| Schema.NewSupersetDirReader | pkg/schema/dirreader.go:61-66 | Only a "directory" superset yields a reader. That reader is bound to the superset, has nothing cached and has its cursor at 0. Any other type fails with UnexpectedType. |
| Schema.NewDirReader | pkg/schema/dirreader.go:40-55 | Succeeds exactly when the ref is valid and loads to a "directory" superset. Then the reader has that schema, an empty cache and cursor 0. A decoded blob of another type fails with UnexpectedType. |
| Schema.FetchStaticSet | pkg/schema/dirreader.go:89-103 | The `entries` ref must be valid and must load to a "static-set" superset. An invalid ref, a fetch failure, a decode failure and a blob of another type are each a distinct failure, the last with UnexpectedType naming the type found. On success the raw member list is returned. |
| Schema.ValidPrefix | pkg/schema/dirreader.go:104-109 | The members appended by the validation loop are a prefix of the members, all valid. If the prefix is shorter, the next member is invalid. |
| Schema.StaticSet | pkg/schema/dirreader.go:85-111 | A non-empty cache is returned unchanged, whatever the store holds, so no fetch happens. A failing fetch, decode or type check leaves the reader unchanged. An all-valid member list is cached and returned in order. At the first invalid member i, the call fails and `Members[0..i]` stays cached. |
| Schema.StaticSetIdempotent | pkg/schema/dirreader.go:85-111 | A second call after a successful one returns the same list and leaves the same reader. |
| Schema.EmptyMembersNotCached | pkg/schema/dirreader.go:86-110 | An empty static-set returns an empty list and leaves the reader exactly as it was, so nothing is cached. |
| Schema.PartialCacheServedLater | pkg/schema/dirreader.go:86-108 | When member i > 0 is the first invalid member, the call fails. The next call returns `Members[0..i]` as a success. |
| Schema.ResolveAll | pkg/schema/dirreader.go:155-162 | The batch succeeds iff every ref resolves. It then returns one entry per ref, in ref order. Any failure fails the whole batch. |
| Schema.FanOut | pkg/schema/dirreader.go:142-162 | Filling one result slot per ref in launch order, then draining the slots in that order, gives the same result as the in-order map. |
| Schema.ReadRange | pkg/schema/dirreader.go:119-162 | For n <= 0 the cursor becomes 0 and the range is the whole list. For n > 0 the cursor is unchanged and the range is `[current, min(current+n, len))`. The outcome succeeds iff every member in range resolves, with those entries in order. An out-of-range cursor panics. |
| Schema.Readdir | pkg/schema/dirreader.go:114-163 | A StaticSet failure returns no entries and an error. Otherwise the cursor is reset to 0 for n <= 0 and never increased. Success returns exactly the entries of the range, in member order, even when the range was clamped. It succeeds iff every member in range resolves. |
| Schema.ReaddirRepeatsPage | pkg/schema/dirreader.go:119-128 | Since the cursor never advances, a second `Readdir(n)` against the same store after a successful one returns the same page and the same reader. |
| Schema.ReaddirSameRangeAnyStore | pkg/schema/dirreader.go:85-128 | Whatever the store answers the second time, the second `Readdir(n)` keeps the cursor and asks for the same range. A non-empty member list comes from the cache without a fetch, and any success resolves that same range. |
| Schema.ClampedPageSucceeds | pkg/schema/dirreader.go:119-162 | When `current + n` passes the end, the end-of-sequence flag is raised. The call still succeeds with the `len - current` remaining entries. |
| Schema.NewDirReaderInv | pkg/schema/dirreader.go:40-55 | A new reader has cursor 0, a directory schema and only valid cached refs. |
| Schema.ReaddirKeepsInv | pkg/schema/dirreader.go:115-146 | From such a state, `Readdir` stays in such a state and its slice never panics. |
| Schema.ReaddirSeqNeverPanics | pkg/schema/dirreader.go:115-146 | Over any sequence of `Readdir` calls on a new reader, the cursor stays 0 and no call panics. |
| GoStrings.Split | lib/go/camli/auth/auth.go:52 | `strings.Split` on `:` yields at least one piece. No piece contains `:`, and joining the pieces with `:` gives back the input. |
| GoStrings.SplitJoin | lib/go/camli/auth/auth.go:52 | Splitting the join of `:`-free pieces gives back those pieces, so the split of a string is unique. |
| GoStrings.SplitFirst | lib/go/camli/auth/auth.go:93 | `strings.SplitN(s, ":", 2)` gives `[s]` when `:` does not occur. Otherwise it gives the `:`-free text before the first `:` and everything after it. |
| GoStrings.SplitFirstAtFirstSep | lib/go/camli/auth/auth.go:93-97 | A `:`-free prefix followed by `:` is split off whatever follows, even when the rest contains `:`. |
| Auth.FromConfig | lib/go/camli/auth/auth.go:51-75 | A non-empty advertised password gives `DevAuth(pw)` whatever the config. Otherwise success is always `UserPass(u, p)` with config `userpass:u:p` and `:`-free u and p. A first piece other than `userpass` fails as an unknown auth type. |
| Auth.FromConfigUserPass | lib/go/camli/auth/auth.go:64-70 | Without an advertised password, the result is `UserPass(u, p)` iff the config is `userpass:u:p` with no `:` in u or p. |
| Auth.ColonInPasswordRejected | lib/go/camli/auth/auth.go:52-70 | A password containing `:` splits the config into more than three pieces, so it is rejected. |
| Auth.FromConfigRejectsEmpty | lib/go/camli/auth/auth.go:52-73 | The empty config is an unknown auth type `""`, not the unreachable "invalid auth string". |
| Auth.TokenRun | lib/go/camli/auth/auth.go:28 | The greedy capture is the longest prefix made of `[A-Za-z0-9+/=]` characters. |
| Auth.MatchBasic | lib/go/camli/auth/auth.go:82-86 | The pattern matches iff the header starts with `Basic ` followed by a token character. The capture is the maximal non-empty token run after `Basic `, and whatever follows is not looked at. |
| Auth.TrailingTextIgnored | lib/go/camli/auth/auth.go:28 | Text after the token that starts with a non-token character does not change what `basicAuth` returns. |
| Base64.Decode | lib/go/camli/auth/auth.go:86-92 | Decoding succeeds iff the input is whole quanta, each acceptable, with `=` padding allowed only in the final quantum. An input whose length is not a multiple of four fails. |
| Base64.DecodeLength | lib/go/camli/auth/auth.go:86-92 | A decoded input of length 4k with p closing `=` yields exactly 3k - p bytes. |
| Base64.PaddingOnlyAtEnd | lib/go/camli/auth/auth.go:86-92 | A `=` inside an earlier quantum makes the decode fail, as with `QQ==QQ==`. |
| Base64.DecodeQuantum | lib/go/camli/auth/auth.go:86-92 | A quantum decodes iff it has two alphabet characters followed by two more, or, in the last quantum only, one more and `=`, or `==`. It yields 3, 2 or 1 bytes respectively. |
| Base64.DecodeEncode | lib/go/camli/auth/auth.go:86-92 | Decoding the padded encoding of any byte sequence gives back that sequence. |
| Auth.BasicAuth | lib/go/camli/auth/auth.go:77-98 | A missing or empty header is an error, and so is a header the pattern does not match. A token that is not valid Base64 is `CorruptBase64`, and a payload without `:` is `NoColon`. A decodable payload with `:` succeeds. On success the payload is `user:password` with no `:` in user. |
| Auth.BasicAuthRoundTrip | lib/go/camli/auth/auth.go:77-98 | The header `Basic <base64(user:pass)>` parses back to exactly (user, pass) when user has no `:`. The password may contain `:`. |
| Auth.IsAuthorized | lib/go/camli/auth/auth.go:106-132 | Any parse error refuses. `UserPass` accepts iff both user and password match. `DevAuth` accepts iff the password matches, whatever the user. |
| Auth.UserPassAcceptsOwnCredentials | lib/go/camli/auth/auth.go:106-113 | `UserPass(u, p)` accepts the Basic header built from u and p. |
| Auth.DevAuthIgnoresUser | lib/go/camli/auth/auth.go:125-132 | `DevAuth(pw)` accepts a Basic header with any user name without `:` and password pw. A user name with `:` would be split at its first `:`. |
| Auth.TriedAuthorization | lib/go/camli/auth/auth.go:142-146 | True iff the request carries a non-empty `Authorization` header. |
| Auth.UntriedIsUnauthorized | lib/go/camli/auth/auth.go:142-146 | A request that did not try to authorize is refused by every mode. |

## Left out

- Blob fetching, `json.Decoder` and closing the stream (dirreader.go lines 73-81 and 93-97) are one abstract `Store.load`. So is the stream that `StaticSet` never closes. These are I/O and library decoding.
- The `Store` is deterministic: each of its functions gives the same answer every time. A transient fetch or resolution failure between two calls is not modelled. `Schema.StaticSetIdempotent`, `Schema.EmptyMembersNotCached` and `Schema.ReaddirRepeatsPage` compare two calls against one store. `Schema.ReaddirSameRangeAnyStore` states the part that holds against any second store.
- `ss.BlobRef = blobRef` (dirreader.go line 72) is not recorded. `ss.BlobRef` is written there and never read in dirreader.go.
- `Blob.NewDirReader` (dirreader.go lines 57-59) is not modelled. It only forwards to the superset's `NewDirReader`, and the `Blob` type is not part of this model.
- The goroutines and channels of `Readdir` (dirreader.go lines 138-161) are a sequential in-order map. Only order and the all-or-nothing rule are observable.
- Error messages are failure tags. The message at dirreader.go line 158 formats the outer `err` instead of the entry's error. That only affects the message.
- `dr.current + n` (dirreader.go line 119) uses Go's fixed-width `int`. The model uses unbounded integers. The sum cannot overflow while the cursor is 0, and the cursor is always 0.
- `FromEnv`, the `os.Getenv` calls and the global `mode` (auth.go lines 30-32, 42-44, 58 and 138-140) are process-global state. They are passed as parameters instead.
- `AddAuthHeader` (auth.go lines 115-117 and 134-136) delegates to `http.Request.SetBasicAuth`, which is not part of this model.
- `SendUnauthorized` and `RequireAuth` (auth.go lines 148-168) write HTTP responses and wrap handlers.
- The `fmt.Printf` logging (auth.go lines 109 and 128) is output only.
- `Header.Get` (auth.go lines 78 and 145) is reduced to one optional header value. Header-name canonicalisation and repeated headers are not modelled.
- Go's `encoding/base64` is not part of this model. `Base64.Decode` follows section 4 of RFC 4648 and the pre-Go 1 `encoding/base64` that auth.go imports (the same release uses `os.Error` and the old `"http"` package). That decoder requires whole quanta, accepts `=` padding only at the end and does not check pad bits.
- Strings holding a char of 256 or more have no Go counterpart, since a Go string is bytes. `FromConfig`, `BasicAuth` and `IsAuthorized` accept them anyway. Such inputs lie outside what the model describes, and nothing is claimed about them.
