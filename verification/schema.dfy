/** The directory reader of the schema package: a "directory" schema blob
    names, through its `entries` ref, a "static-set" blob whose `members`
    are the directory's entries in listing order. A `DirReader` caches that
    member list lazily and resolves ranges of it to directory entries.

    The blob store is not modelled: ref validity, fetch-and-decode of a
    schema blob and the per-member entry resolver are the three total
    functions of a `Store` handed to every operation. */
module Schema {
  import opened Wrappers

  /** A content-addressed blob reference. */
  datatype Ref = Ref(digest: string)

  /** A decoded schema blob: its `type`, the `entries` ref a directory
      carries and the ordered `members` a static-set carries. */
  datatype Superset = Superset(kind: string, entries: Ref, members: seq<Ref>)

  /** The outcome of fetching a blob and JSON-decoding it as a superset. */
  datatype Loaded = FetchFailed | DecodeFailed | Decoded(schema: Superset)

  datatype EntryKind = File | Directory | Symlink | OtherKind(kind: string)

  /** The resolved view of one static-set member; only aggregated here. */
  datatype DirectoryEntry = DirectoryEntry(kind: EntryKind, name: string)

  /** The external collaborators: `Ref.Valid`, fetch + decode, and
      `NewDirectoryEntryFromBlobRef`. */
  datatype Store = Store(
    valid: Ref -> bool,
    load: Ref -> Loaded,
    resolveEntry: Ref -> Option<DirectoryEntry>)

  /** Failure tags; the source's messages are not modelled. */
  datatype Error =
    | InvalidRef
    | FetchError
    | DecodeError
    | UnexpectedType(want: string, got: string)
    | InvalidMember
    | StaticSetError(cause: Error)
    | EntryError
    | SlicePanic   // the runtime panic of an out-of-range slice expression

  /** The reader's mutable state. An empty `staticSet` stands for Go's nil
      slice: the source only ever appends to it, so a non-nil cache is never
      empty. */
  datatype DirReader = DirReader(schema: Superset, staticSet: seq<Ref>, current: int)

  /** The reader after a call, together with what the call returned. */
  datatype Step<T> = Step(reader: DirReader, out: Result<T, Error>)

  const DirectoryType := "directory"
  const StaticSetType := "static-set"

  // ---------------------------------------------------------------------
  // Construction
  // ---------------------------------------------------------------------

  /** `superset.setFromBlobRef`: an invalid ref fails before any fetch;
      fetch and decode failures are reported as such. */
  function SetFromBlobRef(store: Store, ref: Ref): (r: Result<Superset, Error>)
    ensures !store.valid(ref) ==> r == Failure(InvalidRef)
    ensures store.valid(ref) && store.load(ref).FetchFailed? ==> r == Failure(FetchError)
    ensures store.valid(ref) && store.load(ref).DecodeFailed? ==> r == Failure(DecodeError)
    ensures r.Success? <==> store.valid(ref) && store.load(ref).Decoded?
    ensures r.Success? ==> r.value == store.load(ref).schema
  {
    if !store.valid(ref) then Failure(InvalidRef)
    else
      match store.load(ref)
      case FetchFailed => Failure(FetchError)
      case DecodeFailed => Failure(DecodeError)
      case Decoded(ss) => Success(ss)
  }

  /** `superset.NewDirReader`: only a directory superset yields a reader,
      and that reader has nothing cached. */
  function NewSupersetDirReader(ss: Superset): (r: Result<DirReader, Error>)
    ensures r.Success? <==> ss.kind == DirectoryType
    ensures r.Success? ==> r.value.schema == ss && r.value.staticSet == [] && r.value.current == 0
    ensures ss.kind != DirectoryType ==> r == Failure(UnexpectedType(DirectoryType, ss.kind))
  {
    if ss.kind != DirectoryType then Failure(UnexpectedType(DirectoryType, ss.kind))
    else Success(DirReader(ss, [], 0))
  }

  /** `NewDirReader`: succeeds exactly when the ref is valid, loads, and
      decodes to a "directory" superset; the static-set is not touched. */
  function NewDirReader(store: Store, ref: Ref): (r: Result<DirReader, Error>)
    ensures r.Success? <==>
      store.valid(ref) && store.load(ref).Decoded? && store.load(ref).schema.kind == DirectoryType
    ensures r.Success? ==> r.value == DirReader(store.load(ref).schema, [], 0)
    ensures store.valid(ref) && store.load(ref).Decoded? && store.load(ref).schema.kind != DirectoryType ==>
      r == Failure(UnexpectedType(DirectoryType, store.load(ref).schema.kind))
  {
    var ss :- SetFromBlobRef(store, ref);
    if ss.kind != DirectoryType then Failure(UnexpectedType(DirectoryType, ss.kind))
    else
      match NewSupersetDirReader(ss)
      case Failure(e) => Failure(e)
      case Success(dr) => Success(dr.(current := 0))
  }

  // ---------------------------------------------------------------------
  // StaticSet
  // ---------------------------------------------------------------------

  /** The fetch half of `StaticSet`: the `entries` ref must be valid and
      load to a "static-set" superset, whose raw members are returned. */
  function FetchStaticSet(store: Store, entries: Ref): (r: Result<seq<Ref>, Error>)
    ensures !store.valid(entries) ==> r == Failure(InvalidRef)
    ensures store.valid(entries) && store.load(entries).FetchFailed? ==> r == Failure(FetchError)
    ensures store.valid(entries) && store.load(entries).DecodeFailed? ==> r == Failure(DecodeError)
    ensures r.Success? <==>
      store.valid(entries) && store.load(entries).Decoded? && store.load(entries).schema.kind == StaticSetType
    ensures r.Success? ==> r.value == store.load(entries).schema.members
    ensures store.valid(entries) && store.load(entries).Decoded? && store.load(entries).schema.kind != StaticSetType ==>
      r == Failure(UnexpectedType(StaticSetType, store.load(entries).schema.kind))
  {
    if !store.valid(entries) then Failure(InvalidRef)
    else
      match store.load(entries)
      case FetchFailed => Failure(FetchError)
      case DecodeFailed => Failure(DecodeError)
      case Decoded(ss) =>
        if ss.kind != StaticSetType then Failure(UnexpectedType(StaticSetType, ss.kind))
        else Success(ss.members)
  }

  /** The members appended to the cache by the validation loop: the longest
      prefix of `members` whose refs are all valid. */
  function ValidPrefix(valid: Ref -> bool, members: seq<Ref>): (p: seq<Ref>)
    ensures p <= members
    ensures forall i :: 0 <= i < |p| ==> valid(p[i])
    ensures |p| < |members| ==> !valid(members[|p|])
    decreases |members|
  {
    if |members| == 0 || !valid(members[0]) then []
    else [members[0]] + ValidPrefix(valid, members[1..])
  }

  /** True when every member before index `i` is valid. */
  ghost predicate ValidBefore(valid: Ref -> bool, members: seq<Ref>, i: int)
    requires 0 <= i <= |members|
  {
    forall j :: 0 <= j < i ==> valid(members[j])
  }

  /** `DirReader.StaticSet`. A non-empty cache is returned as is, whatever
      the store holds. Otherwise a fetch failure leaves the reader unchanged;
      a full valid member list is cached and returned; and at the first
      invalid member the valid members before it stay cached while the call
      fails. */
  function StaticSet(store: Store, dr: DirReader): (r: Step<seq<Ref>>)
    ensures r.reader.schema == dr.schema && r.reader.current == dr.current
    ensures |dr.staticSet| > 0 ==> r == Step(dr, Success(dr.staticSet))
    ensures |dr.staticSet| == 0 && FetchStaticSet(store, dr.schema.entries).Failure? ==>
      r == Step(dr, FetchStaticSet(store, dr.schema.entries))
    ensures |dr.staticSet| == 0 && FetchStaticSet(store, dr.schema.entries).Success? ==>
      var ms := FetchStaticSet(store, dr.schema.entries).value;
      (ValidBefore(store.valid, ms, |ms|) ==> r == Step(dr.(staticSet := ms), Success(ms)))
      && (forall i :: 0 <= i < |ms| && !store.valid(ms[i]) && ValidBefore(store.valid, ms, i) ==>
            r == Step(dr.(staticSet := ms[..i]), Failure(InvalidMember)))
  {
    if |dr.staticSet| > 0 then Step(dr, Success(dr.staticSet))
    else
      match FetchStaticSet(store, dr.schema.entries)
      case Failure(e) => Step(dr, Failure(e))
      case Success(ms) =>
        var cached := ValidPrefix(store.valid, ms);
        if |cached| < |ms| then Step(dr.(staticSet := cached), Failure(InvalidMember))
        else
          assert cached == ms;
          Step(dr.(staticSet := cached), Success(cached))
  }

  // ---------------------------------------------------------------------
  // Readdir
  // ---------------------------------------------------------------------

  /** Resolves every ref in order; one failure fails the whole batch. */
  function ResolveAll(resolve: Ref -> Option<DirectoryEntry>, refs: seq<Ref>): (r: Result<seq<DirectoryEntry>, Error>)
    ensures r.Success? <==> forall i :: 0 <= i < |refs| ==> resolve(refs[i]).Some?
    ensures r.Success? ==>
      |r.value| == |refs| && forall i :: 0 <= i < |refs| ==> r.value[i] == resolve(refs[i]).value
    ensures r.Failure? ==> r.error == EntryError
    decreases |refs|
  {
    if |refs| == 0 then Success([])
    else
      match resolve(refs[0])
      case None => Failure(EntryError)
      case Some(e) =>
        match ResolveAll(resolve, refs[1..])
        case Failure(err) => Failure(err)
        case Success(rest) => Success([e] + rest)
  }

  /** The goroutine fan-out of `Readdir`: one result slot per ref is filled
      in launch order, then the slots are drained strictly in that order and
      the first failed slot fails the batch. */
  method FanOut(resolve: Ref -> Option<DirectoryEntry>, refs: seq<Ref>) returns (r: Result<seq<DirectoryEntry>, Error>)
    ensures r.Success? <==> forall i :: 0 <= i < |refs| ==> resolve(refs[i]).Some?
    ensures r.Success? ==>
      |r.value| == |refs| && forall i :: 0 <= i < |refs| ==> r.value[i] == resolve(refs[i]).value
    ensures r == ResolveAll(resolve, refs)
  {
    var slots: seq<Option<DirectoryEntry>> := [];
    var k := 0;
    while k < |refs|
      invariant 0 <= k <= |refs|
      invariant |slots| == k
      invariant forall i :: 0 <= i < k ==> slots[i] == resolve(refs[i])
    {
      slots := slots + [resolve(refs[k])];
      k := k + 1;
    }
    var entries: seq<DirectoryEntry> := [];
    var j := 0;
    while j < |slots|
      invariant 0 <= j <= |slots|
      invariant |entries| == j
      invariant forall i :: 0 <= i < j ==> slots[i].Some? && entries[i] == slots[i].value
    {
      if slots[j].None? {
        return Failure(EntryError);
      }
      entries := entries + [slots[j].value];
      j := j + 1;
    }
    assert entries == ResolveAll(resolve, refs).value;
    return Success(entries);
  }

  /** The slice bounds `Readdir` computes, the cursor it leaves behind and
      the end-of-sequence flag it raises (and later drops). */
  datatype Page = Page(lo: int, hi: int, cursor: int, eof: bool)

  function PageBounds(current: int, n: int, size: int): Page {
    if n <= 0 then Page(0, size, 0, false)
    else if n > size - current then Page(current, size, current, true)
    else Page(current, current + n, current, false)
  }

  function Min(a: int, b: int): int {
    if a <= b then a else b
  }

  /** Start of the range `Readdir(n)` lists: everything for `n <= 0`,
      otherwise from the cursor. */
  function RangeLo(current: int, n: int): int {
    if n <= 0 then 0 else current
  }

  /** End of that range: `n` members from the cursor, clamped to the list. */
  function RangeHi(current: int, n: int, size: int): int {
    if n <= 0 then size else Min(current + n, size)
  }

  /** True when `entries` resolves `sts[lo..hi]` one for one, in order. */
  ghost predicate ResolvesRange(resolve: Ref -> Option<DirectoryEntry>, sts: seq<Ref>, lo: int, hi: int,
                                entries: seq<DirectoryEntry>)
  {
    && 0 <= lo <= hi <= |sts|
    && |entries| == hi - lo
    && forall i :: 0 <= i < hi - lo ==> resolve(sts[lo + i]) == Some(entries[i])
  }

  /** The cursor `Readdir` leaves behind and what it returns. */
  datatype Listing = Listing(cursor: int, out: Result<seq<DirectoryEntry>, Error>)

  /** The part of `Readdir` after the member list `sts` is known: the range
      arithmetic, the cursor reset and the fan-out over the range. */
  function ReadRange(resolve: Ref -> Option<DirectoryEntry>, sts: seq<Ref>, current: int, n: int): (r: Listing)
    ensures r.cursor == (if n <= 0 then 0 else current)
    ensures r.out.Success? ==>
      ResolvesRange(resolve, sts, RangeLo(current, n), RangeHi(current, n, |sts|), r.out.value)
    ensures 0 <= current && (n <= 0 || current <= |sts|) ==>
      (r.out.Success? <==>
        forall i :: RangeLo(current, n) <= i < RangeHi(current, n, |sts|) ==> resolve(sts[i]).Some?)
    ensures n > 0 && (current < 0 || current > |sts|) ==> r.out == Failure(SlicePanic)
  {
    var page := PageBounds(current, n, |sts|);
    if !(0 <= page.lo <= page.hi <= |sts|) then Listing(page.cursor, Failure(SlicePanic))
    else
      var refs := sts[page.lo..page.hi];
      assert forall i :: page.lo <= i < page.hi ==> sts[i] == refs[i - page.lo];
      Listing(page.cursor, ResolveAll(resolve, refs))
  }

  /** `DirReader.Readdir`. The cursor is reset to 0 for `n <= 0` and
      otherwise left where it was; it never moves forward. On success the
      entries are those of the range, one per member, in member order, even
      when the range was clamped (the end-of-sequence status is dropped);
      any failure returns no entries. */
  function Readdir(store: Store, dr: DirReader, n: int): (r: Step<seq<DirectoryEntry>>)
    ensures var s := StaticSet(store, dr);
      && r.reader.schema == dr.schema
      && r.reader.staticSet == s.reader.staticSet
      && (s.out.Failure? ==> r == Step(s.reader, Failure(StaticSetError(s.out.error))))
      && (s.out.Success? ==> r.reader.current == (if n <= 0 then 0 else dr.current))
    ensures r.out.Success? ==>
      var sts := StaticSet(store, dr).out.value;
      ResolvesRange(store.resolveEntry, sts, RangeLo(dr.current, n), RangeHi(dr.current, n, |sts|), r.out.value)
    ensures StaticSet(store, dr).out.Success? && 0 <= dr.current ==>
      var sts := StaticSet(store, dr).out.value;
      (n <= 0 || dr.current <= |sts|) ==>
        (r.out.Success? <==>
          forall i :: RangeLo(dr.current, n) <= i < RangeHi(dr.current, n, |sts|) ==>
            store.resolveEntry(sts[i]).Some?)
  {
    var s := StaticSet(store, dr);
    match s.out
    case Failure(e) => Step(s.reader, Failure(StaticSetError(e)))
    case Success(sts) =>
      var listing := ReadRange(store.resolveEntry, sts, s.reader.current, n);
      Step(s.reader.(current := listing.cursor), listing.out)
  }

  // ---------------------------------------------------------------------
  // Properties across calls
  // ---------------------------------------------------------------------

  /** A successful `StaticSet` is idempotent: calling it again on the
      resulting reader returns the same list and leaves the same state. */
  lemma StaticSetIdempotent(store: Store, dr: DirReader)
    requires StaticSet(store, dr).out.Success?
    ensures StaticSet(store, StaticSet(store, dr).reader) == StaticSet(store, dr)
  {
    if |dr.staticSet| == 0 {
      var ms := FetchStaticSet(store, dr.schema.entries).value;
      assert ValidPrefix(store.valid, ms) == ms;
    }
  }

  /** An empty member list is never cached: the reader is unchanged, so the
      next call fetches the static-set again. */
  lemma EmptyMembersNotCached(store: Store, dr: DirReader)
    requires |dr.staticSet| == 0
    requires FetchStaticSet(store, dr.schema.entries) == Success([])
    ensures StaticSet(store, dr) == Step(dr, Success([]))
  {
  }

  /** When member `i > 0` is the first invalid one, the call fails but the
      valid members before it stay cached, and the next call returns that
      partial list as a success without fetching. */
  lemma PartialCacheServedLater(store: Store, dr: DirReader, i: int)
    requires |dr.staticSet| == 0
    requires FetchStaticSet(store, dr.schema.entries).Success?
    requires var ms := FetchStaticSet(store, dr.schema.entries).value;
      0 < i < |ms| && !store.valid(ms[i]) && ValidBefore(store.valid, ms, i)
    ensures var ms := FetchStaticSet(store, dr.schema.entries).value;
      var first := StaticSet(store, dr);
      && first.out == Failure(InvalidMember)
      && StaticSet(store, first.reader) == Step(first.reader, Success(ms[..i]))
  {
  }

  /** The cursor never advances: a successful `Readdir(n)` followed by a
      second `Readdir(n)` returns the same page and the same reader. */
  lemma ReaddirRepeatsPage(store: Store, dr: DirReader, n: int)
    requires Readdir(store, dr, n).out.Success?
    ensures Readdir(store, Readdir(store, dr, n).reader, n) == Readdir(store, dr, n)
  {
    var s := StaticSet(store, dr);
    StaticSetIdempotent(store, dr);
    var dr1 := Readdir(store, dr, n).reader;
    assert dr1 == s.reader.(current := if n <= 0 then 0 else dr.current);
    if |s.reader.staticSet| == 0 {
      assert StaticSet(store, dr1) == Step(dr1, s.out);
    }
  }

  /** The part of the repeated page that holds whatever the store answers
      the second time: the second call keeps the cursor, asks for the same
      range, and serves a non-empty cached member list without fetching, so
      only resolving the entries can turn out differently. */
  lemma ReaddirSameRangeAnyStore(store: Store, later: Store, dr: DirReader, n: int)
    requires Readdir(store, dr, n).out.Success?
    ensures var dr1 := Readdir(store, dr, n).reader;
      var sts := StaticSet(store, dr).out.value;
      && dr1.current == RangeLo(dr.current, n)
      && RangeLo(dr1.current, n) == RangeLo(dr.current, n)
      && Readdir(later, dr1, n).reader.current == dr1.current
      && (|sts| > 0 ==> StaticSet(later, dr1) == Step(dr1, Success(sts)))
      && (|sts| > 0 && Readdir(later, dr1, n).out.Success? ==>
            ResolvesRange(later.resolveEntry, sts, RangeLo(dr.current, n), RangeHi(dr.current, n, |sts|),
                          Readdir(later, dr1, n).out.value))
  {
    var s := StaticSet(store, dr);
    var dr1 := Readdir(store, dr, n).reader;
    if |s.out.value| > 0 && |dr.staticSet| == 0 {
      var ms := FetchStaticSet(store, dr.schema.entries).value;
      assert ValidPrefix(store.valid, ms) == ms;
    }
  }

  /** A page clamped at the end of the member list raises the end flag in
      the range arithmetic, yet `Readdir` still succeeds with the shorter
      page when every member resolves. */
  lemma ClampedPageSucceeds(store: Store, dr: DirReader, n: int)
    requires StaticSet(store, dr).out.Success?
    requires var sts := StaticSet(store, dr).out.value;
      0 < n && 0 <= dr.current <= |sts| < dr.current + n
      && forall i :: dr.current <= i < |sts| ==> store.resolveEntry(sts[i]).Some?
    ensures var sts := StaticSet(store, dr).out.value;
      && PageBounds(dr.current, n, |sts|).eof
      && Readdir(store, dr, n).out.Success?
      && |Readdir(store, dr, n).out.value| == |sts| - dr.current
  {
  }

  /** An inductive invariant of readers built by `NewDirReader`: cursor at
      0, a directory schema, and only valid refs cached. It over-approximates
      the states such a reader can reach; it is not exact reachability. */
  ghost predicate ReaderInv(store: Store, dr: DirReader) {
    && dr.current == 0
    && dr.schema.kind == DirectoryType
    && forall i :: 0 <= i < |dr.staticSet| ==> store.valid(dr.staticSet[i])
  }

  lemma NewDirReaderInv(store: Store, ref: Ref)
    requires NewDirReader(store, ref).Success?
    ensures ReaderInv(store, NewDirReader(store, ref).value)
  {
  }

  /** One `Readdir` from a reachable state: it stays reachable and the slice
      expression never panics. */
  lemma ReaddirKeepsInv(store: Store, dr: DirReader, n: int)
    requires ReaderInv(store, dr)
    ensures ReaderInv(store, Readdir(store, dr, n).reader)
    ensures Readdir(store, dr, n).out != Failure(SlicePanic)
  {
    var s := StaticSet(store, dr);
    if |dr.staticSet| == 0 && FetchStaticSet(store, dr.schema.entries).Success? {
      var ms := FetchStaticSet(store, dr.schema.entries).value;
      assert s.reader.staticSet == ValidPrefix(store.valid, ms);
    }
  }

  /** The reader and the results after a sequence of `Readdir` calls. */
  datatype Trace = Trace(reader: DirReader, outs: seq<Result<seq<DirectoryEntry>, Error>>)

  function ReaddirSeq(store: Store, dr: DirReader, ns: seq<int>): (t: Trace)
    ensures |t.outs| == |ns|
    decreases |ns|
  {
    if |ns| == 0 then Trace(dr, [])
    else
      var s := Readdir(store, dr, ns[0]);
      var rest := ReaddirSeq(store, s.reader, ns[1..]);
      Trace(rest.reader, [s.out] + rest.outs)
  }

  /** Over any sequence of calls on a reader from `NewDirReader`, the cursor
      stays at 0 and no call panics. */
  lemma {:induction false} ReaddirSeqNeverPanics(store: Store, dr: DirReader, ns: seq<int>)
    requires ReaderInv(store, dr)
    ensures var t := ReaddirSeq(store, dr, ns);
      && ReaderInv(store, t.reader)
      && t.reader.current == 0
      && forall i :: 0 <= i < |ns| ==> t.outs[i] != Failure(SlicePanic)
    decreases |ns|
  {
    if |ns| > 0 {
      var s := Readdir(store, dr, ns[0]);
      ReaddirKeepsInv(store, dr, ns[0]);
      ReaddirSeqNeverPanics(store, s.reader, ns[1..]);
    }
  }
}
