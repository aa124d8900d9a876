/**
 The pure candidate filter: a stable selection of the candidate records that
 satisfy every active field of a filter state (name, position, status,
 experience), combined with AND.
 */
module CandidateFilter {
  import opened Text

  /** One applicant, as the backend supplies it. */
  datatype Candidate = Candidate(
    id: int,
    name: string,
    email: string,
    position: string,
    status: string,
    experience: int)

  /** The text of the four filter inputs; a field left empty imposes no constraint. */
  datatype FilterState = FilterState(
    name: string,
    position: string,
    status: string,
    experience: string)

  datatype Option<T> = None | Some(value: T)

  /**
   The trimmed, lower-cased name query, computed once per call: empty exactly
   when the name text is blank, and free of upper-case letters.
   */
  function NameQuery(f: FilterState): (q: string)
    ensures q == [] <==> IsBlank(f.name)
    ensures |q| <= |f.name|
    ensures forall i :: 0 <= i < |q| ==> !('A' <= q[i] <= 'Z')
  {
    TrimEmptyIff(f.name);
    ToLower(Trim(f.name))
  }

  /** `null` when the experience text is blank, otherwise `Number(...)` of the untrimmed text. */
  function ExperienceQuery(f: FilterState): (e: Option<JsNumber>)
    ensures e == None <==> IsBlank(f.experience)
    ensures e != None ==> e.value == ToNumber(f.experience)
  {
    TrimEmptyIff(f.experience);
    if Trim(f.experience) == [] then None else Some(ToNumber(f.experience))
  }

  /** The experience query is present and is a number: the text is not blank and does not convert to NaN. */
  predicate HasValidExperience(f: FilterState)
    ensures HasValidExperience(f) <==> !IsBlank(f.experience) && ToNumber(f.experience) != NaN
  {
    ExperienceQuery(f).Some? && ExperienceQuery(f).value.Finite?
  }

  /** The name test: the trimmed, lower-cased query occurs in the lower-cased name. */
  predicate MatchesName(f: FilterState, c: Candidate) {
    NameQuery(f) == [] || Includes(ToLower(c.name), NameQuery(f))
  }

  predicate MatchesPosition(f: FilterState, c: Candidate) {
    f.position == [] || c.position == f.position
  }

  predicate MatchesStatus(f: FilterState, c: Candidate) {
    f.status == [] || c.status == f.status
  }

  /**
   The experience test: blank text and text that converts to NaN accept
   everyone; otherwise the candidate's experience must equal the number.
   */
  predicate MatchesExperience(f: FilterState, c: Candidate)
    ensures MatchesExperience(f, c) <==>
      IsBlank(f.experience) || ToNumber(f.experience) == NaN || ToNumber(f.experience) == Finite(c.experience)
  {
    !HasValidExperience(f) || c.experience == ExperienceQuery(f).value.value
  }

  /** The per-candidate test of the filter: all four field tests, combined with AND. */
  predicate Matches(f: FilterState, c: Candidate) {
    MatchesName(f, c) && MatchesPosition(f, c) && MatchesStatus(f, c) && MatchesExperience(f, c)
  }

  /** `s.filter(p)`: the elements of `s` that satisfy `p`, in their original order. */
  function Select(s: seq<Candidate>, p: Candidate -> bool): (r: seq<Candidate>)
    ensures |r| <= |s|
    ensures forall i :: 0 <= i < |r| ==> p(r[i])
    ensures forall x :: x in r <==> x in s && p(x)
  {
    if s == [] then [] else (if p(s[0]) then [s[0]] else []) + Select(s[1..], p)
  }

  /** `r` is `s` with some elements left out and the rest kept in order. */
  ghost predicate IsSubsequence(r: seq<Candidate>, s: seq<Candidate>)
    decreases |s|
  {
    if r == [] then true
    else if s == [] then false
    else (r[0] == s[0] && IsSubsequence(r[1..], s[1..])) || IsSubsequence(r, s[1..])
  }

  lemma {:induction false} SelectIsSubsequence(s: seq<Candidate>, p: Candidate -> bool)
    ensures IsSubsequence(Select(s, p), s)
  {
    if s != [] {
      SelectIsSubsequence(s[1..], p);
      var r := Select(s, p);
      if p(s[0]) {
        assert r[1..] == Select(s[1..], p);
      } else {
        assert r == Select(s[1..], p);
      }
    }
  }

  lemma {:induction false} SelectMultiplicity(s: seq<Candidate>, p: Candidate -> bool, x: Candidate)
    ensures multiset(Select(s, p))[x] == if p(x) then multiset(s)[x] else 0
  {
    if s != [] {
      SelectMultiplicity(s[1..], p, x);
      assert s == [s[0]] + s[1..];
    }
  }

  lemma {:induction false} SelectKeepsAll(s: seq<Candidate>, p: Candidate -> bool)
    requires forall x :: x in s ==> p(x)
    ensures Select(s, p) == s
  {
    if s != [] {
      SelectKeepsAll(s[1..], p);
      assert s == [s[0]] + s[1..];
    }
  }

  lemma {:induction false} SelectExtensional(s: seq<Candidate>, p: Candidate -> bool, q: Candidate -> bool)
    requires forall x :: p(x) == q(x)
    ensures Select(s, p) == Select(s, q)
  {
    if s != [] {
      SelectExtensional(s[1..], p, q);
    }
  }

  /** Selecting by `p` and then by `q` is selecting by their conjunction `pq`. */
  lemma {:induction false} SelectSelect(s: seq<Candidate>, p: Candidate -> bool, q: Candidate -> bool, pq: Candidate -> bool)
    requires forall x :: pq(x) == (p(x) && q(x))
    ensures Select(Select(s, p), q) == Select(s, pq)
  {
    if s != [] {
      SelectSelect(s[1..], p, q, pq);
      var x := s[0];
      var rp := Select(s[1..], p);
      if p(x) {
        assert Select(s, p) == [x] + rp;
        assert ([x] + rp)[1..] == rp;
      } else {
        assert Select(s, p) == rp;
      }
    }
  }

  /** The per-candidate test of `f`, as the predicate handed to `filter`. */
  function Matcher(f: FilterState): Candidate -> bool {
    c => Matches(f, c)
  }

  /**
   `filterCandidates(candidates, filters)`: the candidates that match, in their
   original order. Exactly the matching candidates of the input appear, and
   every one that appears matches.
   */
  function FilterCandidates(cs: seq<Candidate>, f: FilterState): (r: seq<Candidate>)
    ensures |r| <= |cs|
    ensures forall i :: 0 <= i < |r| ==> Matches(f, r[i])
    ensures forall c :: c in r <==> c in cs && Matches(f, c)
  {
    Select(cs, Matcher(f))
  }

  /** The result is a subsequence of the input: nothing is added and the order is kept. */
  lemma FilterIsSubsequence(cs: seq<Candidate>, f: FilterState)
    ensures IsSubsequence(FilterCandidates(cs, f), cs)
  {
    SelectIsSubsequence(cs, Matcher(f));
  }

  /** Each matching candidate is kept as often as it occurs; each other candidate is dropped. */
  lemma FilterMultiplicity(cs: seq<Candidate>, f: FilterState, c: Candidate)
    ensures multiset(FilterCandidates(cs, f))[c] == if Matches(f, c) then multiset(cs)[c] else 0
  {
    SelectMultiplicity(cs, Matcher(f), c);
  }

  /** When every candidate of the input matches, the filter returns the input unchanged. */
  lemma FilterKeepsAll(cs: seq<Candidate>, f: FilterState)
    requires forall c :: c in cs ==> Matches(f, c)
    ensures FilterCandidates(cs, f) == cs
  {
    SelectKeepsAll(cs, Matcher(f));
  }

  /** Two filter states that accept the same candidates give the same result. */
  lemma FilterExtensional(cs: seq<Candidate>, f: FilterState, g: FilterState)
    requires forall c :: Matches(f, c) == Matches(g, c)
    ensures FilterCandidates(cs, f) == FilterCandidates(cs, g)
  {
    SelectExtensional(cs, Matcher(f), Matcher(g));
  }

  /** Filtering the output again with the same filters changes nothing. */
  lemma FilterIdempotent(cs: seq<Candidate>, f: FilterState)
    ensures FilterCandidates(FilterCandidates(cs, f), f) == FilterCandidates(cs, f)
  {
    SelectKeepsAll(FilterCandidates(cs, f), Matcher(f));
  }

  /** Applying two filters one after the other keeps exactly what both accept, whichever goes first. */
  lemma FilterTwice(cs: seq<Candidate>, a: FilterState, b: FilterState)
    ensures FilterCandidates(FilterCandidates(cs, a), b) == Select(cs, c => Matches(a, c) && Matches(b, c))
    ensures FilterCandidates(FilterCandidates(cs, a), b) == FilterCandidates(FilterCandidates(cs, b), a)
  {
    var ab: Candidate -> bool := c => Matches(a, c) && Matches(b, c);
    var ba: Candidate -> bool := c => Matches(b, c) && Matches(a, c);
    SelectSelect(cs, Matcher(a), Matcher(b), ab);
    SelectSelect(cs, Matcher(b), Matcher(a), ba);
    SelectExtensional(cs, ab, ba);
  }

  /** The filter state whose every field is empty. */
  const EmptyFilters := FilterState("", "", "", "")

  /** A blank name query, empty position and status, and a blank or unparsable experience impose nothing. */
  predicate NoConstraint(f: FilterState) {
    IsBlank(f.name) && f.position == [] && f.status == []
      && (IsBlank(f.experience) || ToNumber(f.experience) == NaN)
  }

  /** With no active constraint every candidate matches. */
  lemma NoConstraintMatchesAll(f: FilterState, c: Candidate)
    requires NoConstraint(f)
    ensures Matches(f, c)
  {
    TrimEmptyIff(f.name);
    TrimEmptyIff(f.experience);
  }

  /** With no active constraint (all-empty filters among them) the result is the input. */
  lemma FilterNoConstraint(cs: seq<Candidate>, f: FilterState)
    requires NoConstraint(f)
    ensures FilterCandidates(cs, f) == cs
  {
    forall c | c in cs ensures Matches(f, c) {
      NoConstraintMatchesAll(f, c);
    }
    FilterKeepsAll(cs, f);
  }

  /** The all-empty filter state returns every candidate in its original order. */
  lemma FilterEmptyFilters(cs: seq<Candidate>)
    ensures FilterCandidates(cs, EmptyFilters) == cs
  {
    FilterNoConstraint(cs, EmptyFilters);
  }

  /**
   The name rule: a blank query accepts everyone; otherwise a candidate matches
   exactly when the trimmed, lower-cased query occurs somewhere in its
   lower-cased name.
   */
  lemma MatchesNameIff(f: FilterState, c: Candidate)
    ensures IsBlank(f.name) ==> MatchesName(f, c)
    ensures !IsBlank(f.name) ==>
      (MatchesName(f, c) <==> exists i :: OccursAt(ToLower(c.name), NameQuery(f), i))
  {
    if !IsBlank(f.name) {
      assert NameQuery(f) != [];
      assert MatchesName(f, c) <==> Includes(ToLower(c.name), NameQuery(f));
    }
    IncludesIff(ToLower(c.name), NameQuery(f));
  }

  /** The name query is compared case-insensitively and after trimming. */
  lemma NameCaseInsensitive(cs: seq<Candidate>, f: FilterState, name: string)
    requires ToLower(Trim(name)) == ToLower(Trim(f.name))
    ensures FilterCandidates(cs, f.(name := name)) == FilterCandidates(cs, f)
  {
    var g := f.(name := name);
    forall c ensures Matches(g, c) == Matches(f, c) {
      SameQueriesSameMatches(g, f, c);
    }
    FilterExtensional(cs, g, f);
  }

  /** With only a position chosen, the result keeps exactly the candidates holding that exact position. */
  lemma PositionOnly(cs: seq<Candidate>, p: string)
    ensures forall c :: c in FilterCandidates(cs, EmptyFilters.(position := p)) <==>
      c in cs && (p == "" || c.position == p)
  {
    forall c ensures Matches(EmptyFilters.(position := p), c) <==> p == "" || c.position == p {
      EmptyFieldsMatch(EmptyFilters.(position := p), c);
    }
  }

  /** With only a status chosen, the result keeps exactly the candidates holding that exact status. */
  lemma StatusOnly(cs: seq<Candidate>, st: string)
    ensures forall c :: c in FilterCandidates(cs, EmptyFilters.(status := st)) <==>
      c in cs && (st == "" || c.status == st)
  {
    forall c ensures Matches(EmptyFilters.(status := st), c) <==> st == "" || c.status == st {
      EmptyFieldsMatch(EmptyFilters.(status := st), c);
    }
  }

  /** A blank experience text imposes no constraint. */
  lemma ExperienceBlank(f: FilterState, c: Candidate)
    requires IsBlank(f.experience)
    ensures !HasValidExperience(f) && MatchesExperience(f, c)
  {
    TrimEmptyIff(f.experience);
  }

  /** An experience text that `Number` turns into NaN imposes no constraint either. */
  lemma ExperienceUnparsable(f: FilterState, c: Candidate)
    requires ToNumber(f.experience) == NaN
    ensures !HasValidExperience(f) && MatchesExperience(f, c)
  {
  }

  /** A non-blank experience text that parses to `n` keeps exactly the candidates with `n` years. */
  lemma ExperienceExact(f: FilterState, c: Candidate, n: int)
    requires !IsBlank(f.experience) && ToNumber(f.experience) == Finite(n)
    ensures HasValidExperience(f)
    ensures MatchesExperience(f, c) <==> c.experience == n
  {
    TrimEmptyIff(f.experience);
  }

  /** Entering the decimal numeral of `n` keeps exactly the candidates with `n` years of experience. */
  lemma ExperienceNumeral(f: FilterState, c: Candidate, n: int)
    requires f.experience == Decimal(n)
    ensures MatchesExperience(f, c) <==> c.experience == n
  {
    DecimalNotBlank(n);
    ToNumberOfDecimal(n);
    ExperienceExact(f, c, n);
  }

  /** Leading zeros and white space around the numeral do not change which candidates it keeps. */
  lemma ExperiencePaddedNumeral(f: FilterState, c: Candidate, pre: string, z: string, n: nat, post: string)
    requires IsBlank(pre) && IsBlank(post)
    requires forall i :: 0 <= i < |z| ==> z[i] == '0'
    requires f.experience == pre + (z + Numeral(n)) + post
    ensures MatchesExperience(f, c) <==> c.experience == n
  {
    ZerosNumeralValue(z, n);
    assert f.experience[|pre|] == (z + Numeral(n))[0];
    ToNumberPaddedNumeral(pre, z, n, post);
    ExperienceExact(f, c, n);
  }

  /** The filter state that keeps only `f`'s name field. */
  function OnlyName(f: FilterState): FilterState { EmptyFilters.(name := f.name) }
  function OnlyPosition(f: FilterState): FilterState { EmptyFilters.(position := f.position) }
  function OnlyStatus(f: FilterState): FilterState { EmptyFilters.(status := f.status) }
  function OnlyExperience(f: FilterState): FilterState { EmptyFilters.(experience := f.experience) }

  /** A candidate matches `f` exactly when it matches each of `f`'s single-field filters. */
  lemma MatchesIsConjunction(f: FilterState, c: Candidate)
    ensures Matches(f, c) <==>
      Matches(OnlyName(f), c) && Matches(OnlyPosition(f), c)
      && Matches(OnlyStatus(f), c) && Matches(OnlyExperience(f), c)
  {
    var a, b, d, e := OnlyName(f), OnlyPosition(f), OnlyStatus(f), OnlyExperience(f);
    EmptyFieldsMatch(a, c);
    EmptyFieldsMatch(b, c);
    EmptyFieldsMatch(d, c);
    EmptyFieldsMatch(e, c);
    SameQueriesSameMatches(a, f, c);
    assert Matches(a, c) == MatchesName(f, c);
    SameQueriesSameMatches(e, f, c);
    assert Matches(e, c) == MatchesExperience(f, c);
    assert Matches(b, c) == MatchesPosition(f, c);
    assert Matches(d, c) == MatchesStatus(f, c);
  }

  /** Filter states with the same computed queries accept the same candidates. */
  lemma SameQueriesSameMatches(f: FilterState, g: FilterState, c: Candidate)
    ensures NameQuery(f) == NameQuery(g) ==> MatchesName(f, c) == MatchesName(g, c)
    ensures ExperienceQuery(f) == ExperienceQuery(g) ==> MatchesExperience(f, c) == MatchesExperience(g, c)
    ensures (NameQuery(f) == NameQuery(g) && f.position == g.position && f.status == g.status
             && ExperienceQuery(f) == ExperienceQuery(g)) ==> Matches(f, c) == Matches(g, c)
  {
    var nf, ng := NameQuery(f), NameQuery(g);
    var ef, eg := ExperienceQuery(f), ExperienceQuery(g);
    assert MatchesName(f, c) == (nf == [] || Includes(ToLower(c.name), nf));
    assert MatchesName(g, c) == (ng == [] || Includes(ToLower(c.name), ng));
    assert MatchesExperience(f, c) == (!(ef.Some? && ef.value.Finite?) || c.experience == ef.value.value);
    assert MatchesExperience(g, c) == (!(eg.Some? && eg.value.Finite?) || c.experience == eg.value.value);
  }

  /** A field that is exactly empty accepts every candidate. */
  lemma EmptyFieldsMatch(f: FilterState, c: Candidate)
    ensures f.name == [] ==> MatchesName(f, c)
    ensures f.position == [] ==> MatchesPosition(f, c)
    ensures f.status == [] ==> MatchesStatus(f, c)
    ensures f.experience == [] ==> MatchesExperience(f, c)
  {
    assert Trim([]) == [];
  }

  /** AND-combination: filtering by all four fields at once equals filtering by one field after another. */
  lemma FilterIsConjunction(cs: seq<Candidate>, f: FilterState)
    ensures FilterCandidates(cs, f) ==
      FilterCandidates(FilterCandidates(FilterCandidates(FilterCandidates(cs,
        OnlyName(f)), OnlyPosition(f)), OnlyStatus(f)), OnlyExperience(f))
  {
    forall c ensures Matches(f, c) <==>
      Matches(OnlyName(f), c) && Matches(OnlyPosition(f), c)
      && Matches(OnlyStatus(f), c) && Matches(OnlyExperience(f), c)
    {
      MatchesIsConjunction(f, c);
    }
    FilterSequence(cs, f);
  }

  /** Filtering by `f`'s single-field filters one after another is filtering by their conjunction. */
  lemma FilterSequence(cs: seq<Candidate>, f: FilterState)
    requires forall c :: Matches(f, c) <==>
      Matches(OnlyName(f), c) && Matches(OnlyPosition(f), c)
      && Matches(OnlyStatus(f), c) && Matches(OnlyExperience(f), c)
    ensures FilterCandidates(cs, f) ==
      FilterCandidates(FilterCandidates(FilterCandidates(FilterCandidates(cs,
        OnlyName(f)), OnlyPosition(f)), OnlyStatus(f)), OnlyExperience(f))
  {
    var a, b, d, e := Matcher(OnlyName(f)), Matcher(OnlyPosition(f)), Matcher(OnlyStatus(f)), Matcher(OnlyExperience(f));
    var ab: Candidate -> bool := c => a(c) && b(c);
    var abd: Candidate -> bool := c => ab(c) && d(c);
    var abde: Candidate -> bool := c => abd(c) && e(c);
    SelectSelect(cs, a, b, ab);
    SelectSelect(cs, ab, d, abd);
    SelectSelect(cs, abd, e, abde);
    forall c ensures abde(c) == Matcher(f)(c) {
      assert abde(c) == (a(c) && b(c) && d(c) && e(c));
    }
    SelectExtensional(cs, abde, Matcher(f));
  }
}
