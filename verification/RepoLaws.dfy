/** Repo provenance and the distribution's own repos, said over sections and packages alone. */
module RepoLaws {
  import opened Types
  import opened Strings
  import opened RepoIndex
  import opened ReplayLaws

  // ----- Provenance -----

  /** The last section, in reading order of the files, whose id is `id` in any ASCII case. */
  ghost predicate IsLastSection(files: seq<RepoFile>, id: string, f: int, k: int) {
    && 0 <= f < |files| && 0 <= k < |files[f].sections| && SameUpToCase(files[f].sections[k].id, id)
    && (forall k' :: k < k' < |files[f].sections| ==> !SameUpToCase(files[f].sections[k'].id, id))
    && forall f', k' :: f < f' < |files| && 0 <= k' < |files[f'].sections| ==>
      !SameUpToCase(files[f'].sections[k'].id, id)
  }

  /** No repo identity at all. */
  predicate IsPseudo(id: string) {
    id == "" || SameUpToCase(id, "@commandline")
  }

  lemma PseudoIsSpelled(id: string)
    ensures IsPseudo(id) <==> id == "" || Fold(id) == "@commandline"
  {
    FoldIsUpToCase(id, "@commandline");
    assert Fold("@commandline") == "@commandline";
  }

  /** What the host says about a section: disabled when its last definition is; else verified when
      that has a source and the scan captured every key it names; else incomplete. */
  lemma ProvenanceIsExact(snap: Snapshot, idx: Index, id: string, f: int, k: int)
    requires IndexFor(snap, idx) && IsLastSection(snap.repoFiles, id, f, k) && !IsPseudo(id)
    ensures var section := snap.repoFiles[f].sections[k];
            var captured := forall p :: p in section.gpgKeyPaths ==> exists g :: g in snap.gpgKeys && g.path == p;
            ProvenanceOf(idx, id) ==
            if !section.enabled then Disabled
            else if section.hasSource && captured then Verified
            else Incomplete
  {
    hide MapsFor, SameUpToCase, Fold;
    PseudoIsSpelled(id);
    assert Decides(snap.repoFiles, Fold(id), f, k) by { LastDecides(snap.repoFiles, id, f, k); }
    forall p
      ensures p in CapturedKeys(snap.gpgKeys) <==> exists g :: g in snap.gpgKeys && g.path == p
    {
      if i :| 0 <= i < |snap.gpgKeys| && snap.gpgKeys[i].path == p {
        assert snap.gpgKeys[i] in snap.gpgKeys;
      }
    }
  }

  lemma LastDecides(files: seq<RepoFile>, id: string, f: int, k: int)
    requires IsLastSection(files, id, f, k)
    ensures Decides(files, Fold(id), f, k)
  {
    hide SameUpToCase, Fold;
    FoldIsUpToCase(files[f].sections[k].id, id);
    forall f', k' | SectionAt(files, f', k') && Before(f, k, f', k')
      ensures Fold(files[f'].sections[k'].id) != Fold(id)
    {
      FoldIsUpToCase(files[f'].sections[k'].id, id);
    }
  }

  /** A section no file defines is stale when some package came from it, and unknown otherwise, as
      are pseudo ids. */
  lemma UndefinedProvenanceIsExact(snap: Snapshot, idx: Index, id: string)
    requires IndexFor(snap, idx)
    requires IsPseudo(id) || forall file, section :: file in snap.repoFiles && section in file.sections ==>
               !SameUpToCase(section.id, id)
    ensures ProvenanceOf(idx, id) ==
            if !IsPseudo(id) && exists p :: p in snap.packages && SameUpToCase(p.sourceRepo, id) then Stale else Unknown
  {
    hide MapsFor, SameUpToCase, Fold;
    PseudoIsSpelled(id);
    if !IsPseudo(id) {
      forall f, k
        ensures !Decides(snap.repoFiles, Fold(id), f, k)
      {
        if SectionAt(snap.repoFiles, f, k) {
          var file := snap.repoFiles[f];
          assert file in snap.repoFiles && file.sections[k] in file.sections;
          FoldIsUpToCase(file.sections[k].id, id);
        }
      }
      if p :| p in snap.packages && SameUpToCase(p.sourceRepo, id) {
        FoldIsUpToCase(p.sourceRepo, id);
        NonEmptyUpToCase(p.sourceRepo, id);
        var i :| 0 <= i < |snap.packages| && snap.packages[i] == p;
        assert Attributed(snap.packages, Fold(id), p.name);
      }
      if name :| Attributed(snap.packages, Fold(id), name) {
        var i :| 0 <= i < |snap.packages| && snap.packages[i].name == name && snap.packages[i].sourceRepo != ""
          && Fold(snap.packages[i].sourceRepo) == Fold(id);
        FoldIsUpToCase(snap.packages[i].sourceRepo, id);
        assert snap.packages[i] in snap.packages;
      }
    }
  }

  lemma NonEmptyUpToCase(s: string, t: string)
    requires SameUpToCase(s, t) && t != ""
    ensures s != ""
  {
  }

  // ----- The distribution's repos -----

  /** The keyword stands at `i` in any case. */
  predicate KeywordAt(id: string, keyword: string, i: int) {
    0 <= i && i + |keyword| <= |id| && SameUpToCase(id[i..i + |keyword|], keyword)
  }

  /** Between dashes or at an end of the id. */
  predicate IsDelimited(id: string, i: nat, n: nat)
    requires i + n <= |id|
  {
    (i == 0 || id[i - 1] == '-') && (i + n == |id| || id[i + n] == '-')
  }

  /** The first occurrence of the keyword is a segment of the id. */
  predicate FirstIsSegment(id: string, keyword: string) {
    exists i :: 0 <= i <= |id| && KeywordAt(id, keyword, i) && IsDelimited(id, i, |keyword|)
      && forall m :: 0 <= m < i ==> !KeywordAt(id, keyword, m)
  }

  predicate IsOneOf(id: string, names: seq<string>) {
    exists n :: n in names && SameUpToCase(id, n)
  }

  /** A repo is the distribution's own when it has one of seven names, or when `baseos` or
      `appstream` first occurs in it as a segment and it is not one of the optional repos, in any
      ASCII case. */
  lemma DistroIsExact(id: string)
    ensures IsDistroRepo(id) <==>
              || IsOneOf(id, ["baseos", "appstream", "fedora", "updates", "updates-testing", "extras", "anaconda"])
              || (!IsPseudo(id) && !IsOneOf(id, ["crb", "codeready-builder", "rhel-extensions"])
                  && (FirstIsSegment(id, "baseos") || FirstIsSegment(id, "appstream")))
  {
    hide SameUpToCase, Fold, FirstIsSegment, HasSegment, IsPseudo, IsOneOf;
    PseudoIsSpelled(id);
    OneOfIsSpelled(id, DISTRO_REPOS);
    OneOfIsSpelled(id, OFFICIAL_OPTIONAL_REPOS);
    SegmentIsSpelled(id, "baseos");
    SegmentIsSpelled(id, "appstream");
    FoldKeepsLength(id);
    assert DISTRO_KEYWORDS[0] == "baseos" && DISTRO_KEYWORDS[1] == "appstream";
  }

  lemma FoldKeepsLength(s: string)
    ensures |Fold(s)| == |s|
  {
  }

  predicate IsLower(s: string) {
    forall i :: 0 <= i < |s| ==> !('A' <= s[i] <= 'Z')
  }

  lemma LowerFolds(s: string)
    requires IsLower(s)
    ensures Fold(s) == s
  {
  }

  lemma OneOfIsSpelled(id: string, names: seq<string>)
    requires forall n :: n in names ==> IsLower(n)
    ensures Fold(id) in names <==> IsOneOf(id, names)
  {
    hide SameUpToCase, Fold, IsLower;
    forall n | n in names
      ensures Fold(id) == n <==> SameUpToCase(id, n)
    {
      LowerFolds(n);
      FoldIsUpToCase(id, n);
    }
  }

  lemma KeywordIsSpelled(id: string, keyword: string, i: int)
    requires IsLower(keyword)
    ensures OccursAt(Fold(id), keyword, i) <==> KeywordAt(id, keyword, i)
  {
    hide SameUpToCase, IsLower;
    assert |Fold(id)| == |id|;
    if 0 <= i && i + |keyword| <= |id| {
      LowerFolds(keyword);
      FoldIsUpToCase(id[i..i + |keyword|], keyword);
      assert Fold(id)[i..i + |keyword|] == Fold(id[i..i + |keyword|]);
    }
  }

  lemma SegmentIsSpelled(id: string, keyword: string)
    requires IsLower(keyword)
    ensures HasSegment(Fold(id), keyword) <==> FirstIsSegment(id, keyword)
  {
    hide SameUpToCase, IsLower, OccursAt, KeywordAt;
    FoldKeepsLength(id);
    forall i
      ensures OccursAt(Fold(id), keyword, i) <==> KeywordAt(id, keyword, i)
    {
      KeywordIsSpelled(id, keyword, i);
    }
    var at := IndexOf(Fold(id), keyword);
    if at.Some? {
      var i := at.value;
      assert i + |keyword| <= |id| by { OccurrenceFits(Fold(id), keyword, i); }
      assert forall j :: 0 <= j < |id| ==> (Fold(id)[j] == '-' <==> id[j] == '-');
      forall j | 0 <= j <= |id| && KeywordAt(id, keyword, j) && forall m :: 0 <= m < j ==> !KeywordAt(id, keyword, m)
        ensures j == i
      {
      }
    }
  }

  lemma OccurrenceFits(s: string, t: string, i: int)
    requires OccursAt(s, t, i)
    ensures 0 <= i && i + |t| <= |s|
  {
  }

  /** A later segment does not count: this id holds `baseos` as a segment, but its first
      occurrence is none, so the repo is not taken for the distribution's own. */
  lemma LaterSegmentIsMissed()
    ensures var id := "xbaseos-baseos";
            KeywordAt(id, "baseos", 8) && IsDelimited(id, 8, 6) && !IsDistroRepo(id)
  {
    var id := "xbaseos-baseos";
    assert id[8..14] == "baseos";
    UndelimitedFirst(id, "baseos", 1);
    NoKeywordWithoutItsLetters(id, "appstream");
    DistroIsExact(id);
    hide FirstIsSegment, IsDistroRepo;
    DifferentLengths(id, ["baseos", "appstream", "fedora", "updates", "updates-testing", "extras", "anaconda"]);
  }

  lemma UndelimitedFirst(id: string, keyword: string, i: nat)
    requires i + |keyword| <= |id| && id[i..i + |keyword|] == keyword && !IsDelimited(id, i, |keyword|)
    requires keyword != "" && 'a' <= keyword[0] <= 'z'
    requires forall m :: 0 <= m < i ==> id[m] != keyword[0] && id[m] as int != keyword[0] as int - 32
    ensures !FirstIsSegment(id, keyword)
  {
    assert KeywordAt(id, keyword, i);
    forall m | 0 <= m < i
      ensures !KeywordAt(id, keyword, m)
    {
      assert m + |keyword| <= |id| ==> id[m..m + |keyword|][0] == id[m];
    }
  }

  lemma NoKeywordWithoutItsLetters(id: string, keyword: string)
    requires |keyword| > 1 && forall i :: 0 <= i < |id| ==>
              id[i] != keyword[1] && id[i] as int != keyword[1] as int - 32
    requires 'a' <= keyword[1] <= 'z'
    ensures !FirstIsSegment(id, keyword)
  {
    forall i
      ensures !KeywordAt(id, keyword, i)
    {
      assert 0 <= i && i + |keyword| <= |id| ==> id[i..i + |keyword|][1] == id[i + 1];
    }
  }

  lemma DifferentLengths(id: string, names: seq<string>)
    requires forall n :: n in names ==> |n| != |id|
    ensures !IsOneOf(id, names)
  {
  }
}
