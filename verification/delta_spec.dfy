/** A delta names a base and a head revision. Its route variables are the base's, plus a
    "DeltaHeadRev" entry: the head's revision token when both sides name the same repository,
    and otherwise the base64url form of the head's repository token, ':' and the head's
    revision token. */
module DeltaSpecs {
  import opened GoStrings
  import opened Results
  import RepoSpecs
  import RepoRevSpecs
  import Base64Url

  datatype DeltaSpec = DeltaSpec(base: RepoRevSpecs.RepoRevSpec, head: RepoRevSpecs.RepoRevSpec)

  /** A delta with the commit, repository and build records the service fills in; the codec
      never looks at them. */
  datatype Delta<Details> = Delta(base: RepoRevSpecs.RepoRevSpec, head: RepoRevSpecs.RepoRevSpec, details: Details)

  const DeltaHeadRevKey: GoString := "DeltaHeadRev"
  const RepoSep: GoString := ":"

  /** The two sides name structurally equal repositories (same URI and same ID). */
  predicate SameRepo(d: DeltaSpec) {
    d.base.repo == d.head.repo
  }

  /** RouteVars returns without panicking: the base's map can be built, the head's revision
      token can be built and, across repositories, so can the head's repository token. */
  predicate Encodable(d: DeltaSpec) {
    && RepoRevSpecs.Encodable(d.base)
    && RepoRevSpecs.RevEncodable(d.head)
    && (!SameRepo(d) ==> RepoSpecs.Encodable(d.head.repo))
  }

  /** The head token of a cross-repository delta. Its first ':' comes right after the base64url
      segment, which decodes to the head's repository token; the rest is the head's revision
      token. */
  function EncodeCrossRepoRevSpec(rr: RepoRevSpecs.RepoRevSpec): (r: GoString)
    requires RepoRevSpecs.Encodable(rr)
    ensures var i := |Base64Url.Encode(RepoSpecs.PathComponent(rr.repo))|;
            && Index(r, RepoSep) == i
            && r[..i] == Base64Url.Encode(RepoSpecs.PathComponent(rr.repo))
            && Base64Url.Decode(r[..i]) == Ok(RepoSpecs.PathComponent(rr.repo))
            && r[i + 1..] == RepoRevSpecs.RevPathComponent(rr)
  {
    var token := RepoSpecs.PathComponent(rr.repo);
    var enc := Base64Url.Encode(token);
    var rev := RepoRevSpecs.RevPathComponent(rr);
    Base64Url.EncodeHasNoColon(token);
    Base64Url.DecodeEncode(token);
    IndexOfSeparatorAfter(enc, RepoSep, rev);
    assert (enc + RepoSep + rev)[..|enc|] == enc;
    assert (enc + RepoSep + rev)[|enc| + 1..] == rev;
    enc + RepoSep + rev
  }

  /** DeltaSpec.RouteVars: the base's entries, left as they are, and one "DeltaHeadRev" entry. */
  function RouteVars(d: DeltaSpec): (r: RouteMap)
    requires Encodable(d)
    ensures r.Keys == {RepoSpecs.RepoSpecKey, RepoRevSpecs.RevKey, DeltaHeadRevKey}
    ensures r - {DeltaHeadRevKey} == RepoRevSpecs.RouteVars(d.base)
    ensures SameRepo(d) ==> r[DeltaHeadRevKey] == RepoRevSpecs.RevPathComponent(d.head)
    ensures !SameRepo(d) ==> r[DeltaHeadRevKey] == EncodeCrossRepoRevSpec(d.head)
  {
    var m := RepoRevSpecs.RouteVars(d.base);
    if SameRepo(d) then m[DeltaHeadRevKey := RepoRevSpecs.RevPathComponent(d.head)]
    else m[DeltaHeadRevKey := EncodeCrossRepoRevSpec(d.head)]
  }

  /** UnmarshalDeltaSpec. The base comes from the "RepoSpec" and "Rev" entries. A ':' in the
      head token marks a cross-repository head: the part before the first ':' is the base64url
      form of the head's repository token and the rest its revision token. Without a ':' the
      whole head token is a revision token in the base's repository. */
  function UnmarshalDeltaSpec(m: RouteMap): (r: Result<DeltaSpec>)
    ensures RepoRevSpecs.UnmarshalRepoRevSpec(m).Err? ==> r.Err?
    ensures r.Ok? ==> Ok(r.value.base) == RepoRevSpecs.UnmarshalRepoRevSpec(m)
    ensures var dhr := Lookup(m, DeltaHeadRevKey);
            var i := Index(dhr, RepoSep);
            RepoRevSpecs.UnmarshalRepoRevSpec(m).Ok? && i != -1 && Base64Url.Decode(dhr[..i]).Err? ==>
              r == Err(CorruptBase64)
    ensures r.Ok? && !Contains(Lookup(m, DeltaHeadRevKey), RepoSep) ==> r.value.head.repo == r.value.base.repo
    ensures RepoRevSpecs.UnmarshalRepoRevSpec(m).Err? ==> r == Err(RepoRevSpecs.UnmarshalRepoRevSpec(m).error)
    ensures var base := RepoRevSpecs.UnmarshalRepoRevSpec(m);
            var dhr := Lookup(m, DeltaHeadRevKey);
            var h := RepoRevSpecs.DecodeTokens(Lookup(m, RepoSpecs.RepoSpecKey), dhr);
            base.Ok? && !Contains(dhr, RepoSep) ==>
              r == if h.Ok? then Ok(DeltaSpec(base.value, h.value)) else Err(h.error)
    ensures var base := RepoRevSpecs.UnmarshalRepoRevSpec(m);
            var dhr := Lookup(m, DeltaHeadRevKey);
            var i := Index(dhr, RepoSep);
            base.Ok? && i != -1 && Base64Url.Decode(dhr[..i]).Ok? ==>
              var h := RepoRevSpecs.DecodeTokens(Base64Url.Decode(dhr[..i]).value, dhr[i + 1..]);
              r == if h.Ok? then Ok(DeltaSpec(base.value, h.value)) else Err(h.error)
  {
    var base :- RepoRevSpecs.UnmarshalRepoRevSpec(m);
    var dhr := Lookup(m, DeltaHeadRevKey);
    var i := Index(dhr, RepoSep);
    if i != -1 then
      var repoToken :- Base64Url.Decode(dhr[..i]);
      var headVars := map[RepoSpecs.RepoSpecKey := repoToken, RepoRevSpecs.RevKey := dhr[i + 1..]];
      assert Lookup(headVars, RepoSpecs.RepoSpecKey) == repoToken && Lookup(headVars, RepoRevSpecs.RevKey) == dhr[i + 1..];
      var head :- RepoRevSpecs.UnmarshalRepoRevSpec(headVars);
      Ok(DeltaSpec(base, head))
    else
      var headVars := map[RepoSpecs.RepoSpecKey := Lookup(m, RepoSpecs.RepoSpecKey), RepoRevSpecs.RevKey := dhr];
      assert Lookup(headVars, RepoSpecs.RepoSpecKey) == Lookup(m, RepoSpecs.RepoSpecKey) && Lookup(headVars, RepoRevSpecs.RevKey) == dhr;
      var head :- RepoRevSpecs.UnmarshalRepoRevSpec(headVars);
      Ok(DeltaSpec(base, head))
  }

  /** Delta.DeltaSpec: the spec naming the delta's two endpoints. */
  function SpecOf<Details>(d: Delta<Details>): (r: DeltaSpec)
    ensures r.base == d.base && r.head == d.head
  {
    DeltaSpec(d.base, d.head)
  }

  /** The base is decoded from the delta's map as from the base's own map. */
  lemma BaseDecodes(d: DeltaSpec)
    requires Encodable(d)
    ensures RepoRevSpecs.UnmarshalRepoRevSpec(RouteVars(d)) == RepoRevSpecs.UnmarshalRepoRevSpec(RepoRevSpecs.RouteVars(d.base))
  {
    RepoRevSpecs.UnmarshalReadsTwoKeys(RouteVars(d), RepoRevSpecs.RouteVars(d.base));
  }

  /** Across repositories the delta decodes back to itself exactly when both sides round-trip
      on their own. */
  lemma CrossRepoRoundTrip(d: DeltaSpec)
    requires Encodable(d) && !SameRepo(d)
    ensures UnmarshalDeltaSpec(RouteVars(d)) == Ok(d) <==>
              RepoRevSpecs.RoundTrips(d.base) && RepoRevSpecs.RoundTrips(d.head)
  {
    var m := RouteVars(d);
    BaseDecodes(d);
    RepoRevSpecs.RouteVarsRoundTrip(d.base);
    var dhr := Lookup(m, DeltaHeadRevKey);
    var i := Index(dhr, RepoSep);
    var headVars := map[RepoSpecs.RepoSpecKey := RepoSpecs.PathComponent(d.head.repo),
                        RepoRevSpecs.RevKey := dhr[i + 1..]];
    RepoRevSpecs.UnmarshalReadsTwoKeys(headVars, RepoRevSpecs.RouteVars(d.head));
    RepoRevSpecs.RouteVarsRoundTrip(d.head);
  }

  /** In one repository, a ':' in the head's revision token sends it down the cross-repository
      path, and the delta does not come back. */
  lemma SameRepoColonMisread(d: DeltaSpec)
    requires Encodable(d) && SameRepo(d)
    requires Contains(RepoRevSpecs.RevPathComponent(d.head), RepoSep)
    ensures UnmarshalDeltaSpec(RouteVars(d)) != Ok(d)
  {
    var m := RouteVars(d);
    var t := RepoRevSpecs.RevPathComponent(d.head);
    assert Lookup(m, DeltaHeadRevKey) == t;
    var i := Index(t, RepoSep);
    var r := UnmarshalDeltaSpec(m);
    if r.Ok? {
      var s := t[i + 1..];
      var repoToken := Base64Url.Decode(t[..i]).value;
      var headVars := map[RepoSpecs.RepoSpecKey := repoToken, RepoRevSpecs.RevKey := s];
      assert Lookup(headVars, RepoRevSpecs.RevKey) == s;
      var h := RepoRevSpecs.UnmarshalRepoRevSpec(headVars);
      assert r.value.head == h.value;
      assert |s| < |t|;
      if d.head.commitID == [] {
        assert h.value.commitID != [] || |h.value.rev| <= |s|;
      }
    }
  }

  /** In one repository the delta decodes back to itself exactly when the base round-trips, the
      head's revision round-trips and the head's revision token holds no ':'. */
  lemma SameRepoRoundTrip(d: DeltaSpec)
    requires Encodable(d) && SameRepo(d)
    ensures UnmarshalDeltaSpec(RouteVars(d)) == Ok(d) <==>
              && RepoRevSpecs.RoundTrips(d.base)
              && RepoRevSpecs.RevRoundTrips(d.head)
              && !Contains(RepoRevSpecs.RevPathComponent(d.head), RepoSep)
  {
    var t := RepoRevSpecs.RevPathComponent(d.head);
    if Contains(t, RepoSep) {
      SameRepoColonMisread(d);
    } else {
      var m := RouteVars(d);
      BaseDecodes(d);
      RepoRevSpecs.RouteVarsRoundTrip(d.base);
      var headVars := map[RepoSpecs.RepoSpecKey := Lookup(m, RepoSpecs.RepoSpecKey), RepoRevSpecs.RevKey := t];
      RepoRevSpecs.UnmarshalReadsTwoKeys(headVars, RepoRevSpecs.RouteVars(d.head));
      RepoRevSpecs.RouteVarsRoundTrip(d.head);
    }
  }

  /** A delta from "r.com/x" at "v1" to "v2" in the same repository: the head token is "v2", and
      the delta decodes back. */
  lemma SameRepoExample()
    ensures var x := RepoSpecs.RepoSpec("r.com/x", 0);
            var d := DeltaSpec(RepoRevSpecs.RepoRevSpec(x, "v1", ""), RepoRevSpecs.RepoRevSpec(x, "v2", ""));
            && Encodable(d)
            && RouteVars(d)[DeltaHeadRevKey] == "v2"
            && UnmarshalDeltaSpec(RouteVars(d)) == Ok(d)
  {
    var x := RepoSpecs.RepoSpec("r.com/x", 0);
    assert x.uri[0] != RepoSpecs.RidMarker[0] && x.uri[0] != RepoSpecs.HomeOwner[0] && x.uri[0] != RepoSpecs.HomeHost[0];
    RevWithoutSeparators("v1");
    RevWithoutSeparators("v2");
    SameRepoRoundTrip(DeltaSpec(RepoRevSpecs.RepoRevSpec(x, "v1", ""), RepoRevSpecs.RepoRevSpec(x, "v2", "")));
  }

  /** The head token for "r.com/y" at "v2" seen from another repository: the base64url form
      of "r.com/y", ':' and "v2". */
  lemma CrossRepoHeadToken()
    ensures var head := RepoRevSpecs.RepoRevSpec(RepoSpecs.RepoSpec("r.com/y", 0), "v2", "");
            RepoRevSpecs.Encodable(head) && EncodeCrossRepoRevSpec(head) == "ci5jb20veQ==:v2"
  {
    var y := RepoSpecs.RepoSpec("r.com/y", 0);
    PlainSide(y.uri, "v2");
    assert RepoSpecs.PathComponent(y) == "r.com/y";
    Base64Url.KnownAnswerRepoPath();
    assert "ci5jb20veQ==" + RepoSep + "v2" == "ci5jb20veQ==:v2";
  }

  /** A delta from "r.com/x" at "v1" to "r.com/y" at "v2" carries that head token and decodes
      back with the head's own repository. */
  lemma CrossRepoExample()
    ensures var x, y := RepoSpecs.RepoSpec("r.com/x", 0), RepoSpecs.RepoSpec("r.com/y", 0);
            var d := DeltaSpec(RepoRevSpecs.RepoRevSpec(x, "v1", ""), RepoRevSpecs.RepoRevSpec(y, "v2", ""));
            && Encodable(d)
            && RouteVars(d)[DeltaHeadRevKey] == "ci5jb20veQ==:v2"
            && UnmarshalDeltaSpec(RouteVars(d)) == Ok(d)
  {
    var x, y := RepoSpecs.RepoSpec("r.com/x", 0), RepoSpecs.RepoSpec("r.com/y", 0);
    PlainSide(x.uri, "v1");
    PlainSide(y.uri, "v2");
    assert x != y by { assert x.uri[6] != y.uri[6]; }
    CrossRepoHeadToken();
    CrossRepoRoundTrip(DeltaSpec(RepoRevSpecs.RepoRevSpec(x, "v1", ""), RepoRevSpecs.RepoRevSpec(y, "v2", "")));
  }

  /** A side naming a repository by a URI that starts with neither 'R' nor 's', at a
      two-character revision with no '=' or ':' and no commit ID, is encodable and round-trips,
      and its revision token holds no ':'. */
  lemma PlainSide(uri: GoString, rev: GoString)
    requires |uri| > 0 && uri[0] != 'R' && uri[0] != 's'
    requires |rev| == 2 && rev[0] !in "=:" && rev[1] !in "=:"
    ensures var s := RepoRevSpecs.RepoRevSpec(RepoSpecs.RepoSpec(uri, 0), rev, []);
            && RepoRevSpecs.Encodable(s)
            && RepoRevSpecs.RoundTrips(s)
            && !Contains(RepoRevSpecs.RevPathComponent(s), RepoSep)
  {
    assert uri[0] != RepoSpecs.RidMarker[0] && uri[0] != RepoSpecs.HomeOwner[0] && uri[0] != RepoSpecs.HomeHost[0];
    RevWithoutSeparators(rev);
  }

  /** The map of a delta based at "r.com/x" and "v1" with the given head token. */
  function ExampleVars(headToken: GoString): (m: RouteMap)
    ensures RepoRevSpecs.UnmarshalRepoRevSpec(m) == Ok(RepoRevSpecs.RepoRevSpec(RepoSpecs.RepoSpec("r.com/x", 0), "v1", []))
    ensures Lookup(m, DeltaHeadRevKey) == headToken && Lookup(m, RepoSpecs.RepoSpecKey) == "r.com/x"
  {
    var x := RepoSpecs.RepoSpec("r.com/x", 0);
    PlainSide(x.uri, "v1");
    var base := RepoRevSpecs.RepoRevSpec(x, "v1", []);
    RepoRevSpecs.RouteVarsRoundTrip(base);
    var m := RepoRevSpecs.RouteVars(base);
    RepoRevSpecs.UnmarshalReadsTwoKeys(m[DeltaHeadRevKey := headToken], m);
    m[DeltaHeadRevKey := headToken]
  }

  /** An empty base64 segment before the ':' decodes to the empty repository token, and the
      whole decode fails with the empty-spec error. */
  lemma EmptyHeadRepoFails()
    ensures UnmarshalDeltaSpec(ExampleVars(":v2")) == Err(EmptyRepoSpec)
  {
    IndexOfSeparatorAfter([], RepoSep, "v2");
    assert [] + RepoSep + "v2" == ":v2";
    assert Base64Url.Decode([]) == Ok([]);
  }

  /** A same-repository head token "===x" holds a commit ID but no revision, and the whole
      decode fails with that error. */
  lemma EmptyHeadRevFails()
    ensures UnmarshalDeltaSpec(ExampleVars("===x")) == Err(EmptyRevWithCommitID("x"))
  {
    var t: GoString := "===x";
    forall j | 0 <= j <= |t|
      ensures !OccursAt(t, RepoSep, j)
    {
      if j < |t| {
        assert t[j..j + 1] == [t[j]];
      }
    }
    assert OccursAt(t, RepoRevSpecs.CommitSep, 0);
    IndexAtMost(t, RepoRevSpecs.CommitSep, 0);
    assert t[3..] == "x";
  }

  /** A two-character revision with no '=' or ':' holds neither separator. */
  lemma RevWithoutSeparators(rev: GoString)
    requires |rev| == 2 && rev[0] !in "=:" && rev[1] !in "=:"
    ensures !Contains(rev, RepoRevSpecs.CommitSep) && !Contains(rev, RepoSep)
  {
    forall j | 0 <= j <= |rev|
      ensures !OccursAt(rev, RepoSep, j)
    {
      if j < |rev| {
        assert rev[j..j + 1] == [rev[j]];
      }
    }
  }
}
