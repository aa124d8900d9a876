/**
 The unit-test scenarios of the candidate filter, stated as lemmas over the
 same four-candidate fixture. Each scenario is first proved for any four
 candidates whose relevant fields are as in the fixture, then for the fixture.
 */
module FilterCandidatesTests {
  import opened Text
  import opened CandidateFilter

  function Alice(): Candidate { Candidate(1, "Alice Johnson", "alice@test.com", "Frontend Developer", "New", 1) }
  function Bob(): Candidate { Candidate(2, "Bob Smith", "bob@test.com", "Backend Developer", "Interview", 3) }
  function Charlie(): Candidate { Candidate(3, "Charlie Green", "charlie@test.com", "Designer", "Rejected", 5) }
  function Alicia(): Candidate { Candidate(4, "Alicia Stone", "alicia@test.com", "Frontend Developer", "Hired", 4) }

  function Fixture(): seq<Candidate> { [Alice(), Bob(), Charlie(), Alicia()] }

  /** `filter` on a sequence with a first element tests that element first. */
  lemma SelectCons(x: Candidate, s: seq<Candidate>, p: Candidate -> bool)
    ensures Select([x] + s, p) == (if p(x) then [x] else []) + Select(s, p)
  {
    assert ([x] + s)[1..] == s;
  }

  /** `filter` over four candidates tests them one by one, in order. */
  lemma SelectFour(a: Candidate, b: Candidate, c: Candidate, d: Candidate, p: Candidate -> bool)
    ensures Select([a, b, c, d], p) ==
      (if p(a) then [a] else []) + ((if p(b) then [b] else []) + ((if p(c) then [c] else []) + (if p(d) then [d] else [])))
  {
    assert [a, b, c, d] == [a] + ([b] + ([c] + ([d] + [])));
    SelectCons(d, [], p);
    SelectCons(c, [d], p);
    SelectCons(b, [c, d], p);
    SelectCons(a, [b, c, d], p);
  }

  /** A query whose first character does not occur in `s` is not included in `s`. */
  lemma {:induction false} NotIncludesFirst(s: string, q: string)
    requires q != [] && q[0] !in s
    ensures !Includes(s, q)
  {
    if s != [] {
      assert s[0] != q[0];
      assert q[0] !in s[1..];
      NotIncludesFirst(s[1..], q);
    }
  }

  /** A name that starts with a part lower-casing to `q` contains `q` once lower-cased. */
  lemma IncludesLowerPrefix(head: string, tail: string, q: string)
    requires ToLower(head) == q
    ensures Includes(ToLower(head + tail), q)
  {
    var t := ToLower(head + tail);
    assert t[..|q|] == ToLower(head) by {
      forall i | 0 <= i < |q| ensures t[i] == ToLower(head)[i] {
        assert (head + tail)[i] == head[i];
      }
    }
  }

  /** A query whose first letter occurs in `s` in neither case is not in `ToLower(s)`. */
  lemma NotIncludesLower(s: string, q: string, upper: char)
    requires q != [] && 'A' <= upper <= 'Z' && LowerChar(upper) == q[0]
    requires q[0] !in s && upper !in s
    ensures !Includes(ToLower(s), q)
  {
    LowerNotIn(s, q[0], upper);
    NotIncludesFirst(ToLower(s), q);
  }

  /** A lower-case letter absent from `s` in both cases is absent from `ToLower(s)`. */
  lemma LowerNotIn(s: string, c: char, upper: char)
    requires 'A' <= upper <= 'Z' && LowerChar(upper) == c
    requires c !in s && upper !in s
    ensures c !in ToLower(s)
  {
    forall i | 0 <= i < |s| ensures ToLower(s)[i] != c {
      assert s[i] in s;
    }
  }

  /** A query whose first character is absent from `l` and whose second character is not `l`'s first is not in `[h] + l`. */
  lemma NotIncludesAfterHead(h: char, l: string, q: string)
    requires |q| >= 2 && l != [] && l[0] != q[1] && q[0] !in l
    ensures !Includes([h] + l, q)
  {
    var w := [h] + l;
    assert !StartsWith(w, q) by {
      assert |q| <= |w| ==> w[..|q|][1] == w[1];
    }
    assert w[1..] == l;
    NotIncludesFirst(l, q);
  }

  /**
   A query whose first letter occurs in `pre + [x] + post`, in either case, only as `x`,
   and whose second letter is not the lower-cased first character of `post`, is not in the lower-cased string.
   */
  lemma LoneLetterNotIncluded(pre: string, x: char, post: string, q: string, upper: char)
    requires |q| >= 2 && 'A' <= upper <= 'Z' && LowerChar(upper) == q[0]
    requires post != [] && LowerChar(post[0]) != q[1]
    requires q[0] !in pre && upper !in pre && q[0] !in post && upper !in post
    ensures !Includes(ToLower(pre + [x] + post), q)
  {
    assert pre + [x] + post == pre + ([x] + post);
    ToLowerAppend(pre, [x] + post);
    ToLowerAppend([x], post);
    assert ToLower([x]) == [LowerChar(x)];
    LowerNotIn(pre, q[0], upper);
    LowerNotIn(post, q[0], upper);
    NotIncludesAfterHead(LowerChar(x), ToLower(post), q);
    IncludesSkipPrefix(ToLower(pre), [LowerChar(x)] + ToLower(post), q);
  }

  lemma AliInAlice()
    ensures Includes(ToLower(Alice().name), "ali")
  {
    assert Alice().name == "Ali" + "ce Johnson";
    IncludesLowerPrefix("Ali", "ce Johnson", "ali");
  }

  lemma AliInAlicia()
    ensures Includes(ToLower(Alicia().name), "ali")
  {
    assert Alicia().name == "Ali" + "cia Stone";
    IncludesLowerPrefix("Ali", "cia Stone", "ali");
  }

  lemma AliNotInBob()
    ensures !Includes(ToLower(Bob().name), "ali")
  {
    NotIncludesLower("Bob Smith", "ali", 'A');
  }

  /** The only "a" of "Charlie Green", in either case, is followed by "r". */
  lemma AliNotInCharlie()
    ensures !Includes(ToLower(Charlie().name), "ali")
  {
    assert Charlie().name == "Ch" + ['a'] + "rlie Green";
    LoneLetterNotIncluded("Ch", 'a', "rlie Green", "ali", 'A');
  }

  lemma BobInBob()
    ensures Includes(ToLower(Bob().name), "bob")
  {
    assert Bob().name == "Bob" + " Smith";
    IncludesLowerPrefix("Bob", " Smith", "bob");
  }

  lemma BobNotInAlice()
    ensures !Includes(ToLower(Alice().name), "bob")
  {
    NotIncludesLower("Alice Johnson", "bob", 'B');
  }

  lemma BobNotInCharlie()
    ensures !Includes(ToLower(Charlie().name), "bob")
  {
    NotIncludesLower("Charlie Green", "bob", 'B');
  }

  lemma BobNotInAlicia()
    ensures !Includes(ToLower(Alicia().name), "bob")
  {
    NotIncludesLower("Alicia Stone", "bob", 'B');
  }

  /** A filter with only the name set accepts a candidate exactly when its name matches. */
  lemma OnlyNameSet(f: FilterState, c: Candidate)
    requires f.position == "" && f.status == "" && f.experience == ""
    ensures Matches(f, c) == MatchesName(f, c)
  {
    EmptyFieldsMatch(f, c);
  }

  /** With every field empty the whole fixture comes back, in order. */
  lemma EmptyFiltersReturnAll()
    ensures FilterCandidates(Fixture(), EmptyFilters) == Fixture()
  {
    FilterEmptyFilters(Fixture());
  }

  /** With only a non-empty name query `q` set, the candidates kept are those whose lower-cased name contains `q`. */
  lemma NameOnlyFour(a: Candidate, b: Candidate, c: Candidate, d: Candidate, f: FilterState, q: string)
    requires NameQuery(f) == q && q != []
    requires f.position == "" && f.status == "" && f.experience == ""
    ensures FilterCandidates([a, b, c, d], f) ==
      (if Includes(ToLower(a.name), q) then [a] else [])
      + ((if Includes(ToLower(b.name), q) then [b] else [])
      + ((if Includes(ToLower(c.name), q) then [c] else [])
      + (if Includes(ToLower(d.name), q) then [d] else [])))
  {
    OnlyNameSet(f, a);
    OnlyNameSet(f, b);
    OnlyNameSet(f, c);
    OnlyNameSet(f, d);
    SelectFour(a, b, c, d, Matcher(f));
  }

  // Name queries "ali" and "ALI": the facts about the query text, then the results.

  lemma TrimLowerAli()
    ensures Trim("ali") == "ali"
  {
    TrimUnpadded("ali");
  }

  lemma TrimUpperAli()
    ensures Trim("ALI") == "ALI"
  {
    TrimUnpadded("ALI");
  }

  lemma LowerAli()
    ensures ToLower("ali") == "ali"
  {
    ToLowerUnchanged("ali");
  }

  lemma UpperAli()
    ensures ToLower("ALI") == "ali"
  {
    assert ToLower("ALI") == [LowerChar('A'), LowerChar('L'), LowerChar('I')];
  }

  lemma NameAliFour(a: Candidate, b: Candidate, c: Candidate, d: Candidate)
    requires Includes(ToLower(a.name), "ali") && !Includes(ToLower(b.name), "ali")
    requires !Includes(ToLower(c.name), "ali") && Includes(ToLower(d.name), "ali")
    ensures FilterCandidates([a, b, c, d], EmptyFilters.(name := "ali")) == [a, d]
  {
    TrimLowerAli();
    LowerAli();
    NameOnlyFour(a, b, c, d, EmptyFilters.(name := "ali"), "ali");
  }

  /** Name "ali" gives ids 1 and 4. */
  lemma NameAli()
    ensures FilterCandidates(Fixture(), EmptyFilters.(name := "ali")) == [Alice(), Alicia()]
  {
    AliInAlice();
    AliNotInBob();
    AliNotInCharlie();
    AliInAlicia();
    NameAliFour(Alice(), Bob(), Charlie(), Alicia());
  }

  lemma NameAliUpperFour(a: Candidate, b: Candidate, c: Candidate, d: Candidate)
    requires Includes(ToLower(a.name), "ali") && !Includes(ToLower(b.name), "ali")
    requires !Includes(ToLower(c.name), "ali") && Includes(ToLower(d.name), "ali")
    ensures FilterCandidates([a, b, c, d], EmptyFilters.(name := "ALI")) == [a, d]
  {
    TrimUpperAli();
    UpperAli();
    NameOnlyFour(a, b, c, d, EmptyFilters.(name := "ALI"), "ali");
  }

  /** Name "ALI" gives the same ids 1 and 4: the match ignores case. */
  lemma NameAliUpperCase()
    ensures FilterCandidates(Fixture(), EmptyFilters.(name := "ALI")) == [Alice(), Alicia()]
  {
    AliInAlice();
    AliNotInBob();
    AliNotInCharlie();
    AliInAlicia();
    NameAliUpperFour(Alice(), Bob(), Charlie(), Alicia());
  }

  // A name query padded with spaces.

  lemma TrimPaddedBob()
    ensures Trim("  bob  ") == "bob"
  {
    assert "  bob  " == "  " + "bob" + "  ";
    TrimPadded("  ", "bob", "  ");
  }

  lemma LowerBob()
    ensures ToLower("bob") == "bob"
  {
    ToLowerUnchanged("bob");
  }

  lemma NameBobFour(a: Candidate, b: Candidate, c: Candidate, d: Candidate)
    requires !Includes(ToLower(a.name), "bob") && Includes(ToLower(b.name), "bob")
    requires !Includes(ToLower(c.name), "bob") && !Includes(ToLower(d.name), "bob")
    ensures FilterCandidates([a, b, c, d], EmptyFilters.(name := "  bob  ")) == [b]
  {
    TrimPaddedBob();
    LowerBob();
    NameOnlyFour(a, b, c, d, EmptyFilters.(name := "  bob  "), "bob");
  }

  /** Name "  bob  " is trimmed before matching and gives id 2. */
  lemma NameBobPadded()
    ensures FilterCandidates(Fixture(), EmptyFilters.(name := "  bob  ")) == [Bob()]
  {
    BobNotInAlice();
    BobInBob();
    BobNotInCharlie();
    BobNotInAlicia();
    NameBobFour(Alice(), Bob(), Charlie(), Alicia());
  }

  // Position queries: exact, case-sensitive equality.

  lemma PositionFour(a: Candidate, b: Candidate, c: Candidate, d: Candidate)
    requires a.position == "Frontend Developer" && b.position == "Backend Developer"
    requires c.position == "Designer" && d.position == "Frontend Developer"
    ensures FilterCandidates([a, b, c, d], EmptyFilters.(position := "Backend Developer")) == [b]
  {
    var f := EmptyFilters.(position := "Backend Developer");
    EmptyFieldsMatch(f, b);
    SelectFour(a, b, c, d, Matcher(f));
  }

  /** Position "Backend Developer" gives id 2. */
  lemma PositionBackend()
    ensures FilterCandidates(Fixture(), EmptyFilters.(position := "Backend Developer")) == [Bob()]
  {
    PositionFour(Alice(), Bob(), Charlie(), Alicia());
  }

  /** A sequence without members is empty. */
  lemma NoMemberEmpty(r: seq<Candidate>)
    ensures (forall c :: c !in r) ==> r == []
  {
    if r != [] {
      assert r[0] in r;
    }
  }

  /** Nothing is kept when no candidate holds the chosen position exactly. */
  lemma PositionNoneHeld(cs: seq<Candidate>, p: string)
    requires p != "" && forall c :: c in cs ==> c.position != p
    ensures FilterCandidates(cs, EmptyFilters.(position := p)) == []
  {
    var r := FilterCandidates(cs, EmptyFilters.(position := p));
    PositionOnly(cs, p);
    NoMemberEmpty(r);
  }

  /** Position "backend developer" keeps nobody: the comparison does not fold case. */
  lemma PositionCaseSensitive()
    ensures FilterCandidates(Fixture(), EmptyFilters.(position := "backend developer")) == []
  {
    PositionNoneHeld(Fixture(), "backend developer");
  }

  /** Position "Backend Developer " keeps nobody: the comparison does not trim. */
  lemma PositionNotTrimmed()
    ensures FilterCandidates(Fixture(), EmptyFilters.(position := "Backend Developer ")) == []
  {
    PositionNoneHeld(Fixture(), "Backend Developer ");
  }

  // Status queries: exact, case-sensitive equality.

  lemma StatusFour(a: Candidate, b: Candidate, c: Candidate, d: Candidate)
    requires a.status == "New" && b.status == "Interview" && c.status == "Rejected" && d.status == "Hired"
    ensures FilterCandidates([a, b, c, d], EmptyFilters.(status := "Rejected")) == [c]
  {
    var f := EmptyFilters.(status := "Rejected");
    EmptyFieldsMatch(f, c);
    SelectFour(a, b, c, d, Matcher(f));
  }

  /** Status "Rejected" gives id 3. */
  lemma StatusRejected()
    ensures FilterCandidates(Fixture(), EmptyFilters.(status := "Rejected")) == [Charlie()]
  {
    StatusFour(Alice(), Bob(), Charlie(), Alicia());
  }

  /** Nothing is kept when no candidate holds the chosen status exactly. */
  lemma StatusNoneHeld(cs: seq<Candidate>, st: string)
    requires st != "" && forall c :: c in cs ==> c.status != st
    ensures FilterCandidates(cs, EmptyFilters.(status := st)) == []
  {
    var r := FilterCandidates(cs, EmptyFilters.(status := st));
    StatusOnly(cs, st);
    NoMemberEmpty(r);
  }

  /** Status "rejected" keeps nobody: the comparison does not fold case. */
  lemma StatusCaseSensitive()
    ensures FilterCandidates(Fixture(), EmptyFilters.(status := "rejected")) == []
  {
    StatusNoneHeld(Fixture(), "rejected");
  }

  // An experience query that converts to a number.

  lemma ExperienceFour(a: Candidate, b: Candidate, c: Candidate, d: Candidate)
    requires a.experience == 1 && b.experience == 3 && c.experience == 5 && d.experience == 4
    ensures FilterCandidates([a, b, c, d], EmptyFilters.(experience := "4")) == [d]
  {
    var f := EmptyFilters.(experience := "4");
    assert Decimal(4) == "4";
    ExperienceNumeral(f, a, 4);
    ExperienceNumeral(f, b, 4);
    ExperienceNumeral(f, c, 4);
    ExperienceNumeral(f, d, 4);
    EmptyFieldsMatch(f, d);
    SelectFour(a, b, c, d, Matcher(f));
  }

  /** Experience "4" gives id 4. */
  lemma ExperienceExactFour()
    ensures FilterCandidates(Fixture(), EmptyFilters.(experience := "4")) == [Alicia()]
  {
    ExperienceFour(Alice(), Bob(), Charlie(), Alicia());
  }

  /** Experience " 04 " keeps the same candidates as "4": the input is a numeric field. */
  lemma ExperiencePaddedFour(a: Candidate, b: Candidate, c: Candidate, d: Candidate)
    requires a.experience == 1 && b.experience == 3 && c.experience == 5 && d.experience == 4
    ensures FilterCandidates([a, b, c, d], EmptyFilters.(experience := " 04 ")) == [d]
  {
    var f := EmptyFilters.(experience := " 04 ");
    assert f.experience == " " + ("0" + Numeral(4)) + " ";
    ExperiencePaddedNumeral(f, a, " ", "0", 4, " ");
    ExperiencePaddedNumeral(f, b, " ", "0", 4, " ");
    ExperiencePaddedNumeral(f, c, " ", "0", 4, " ");
    ExperiencePaddedNumeral(f, d, " ", "0", 4, " ");
    EmptyFieldsMatch(f, d);
    SelectFour(a, b, c, d, Matcher(f));
  }

  /** Experience "abc" is not a number and is ignored: every candidate is returned. */
  lemma ExperienceNotANumber(cs: seq<Candidate>)
    ensures FilterCandidates(cs, EmptyFilters.(experience := "abc")) == cs
  {
    var f := EmptyFilters.(experience := "abc");
    ToNumberNonNumeric("abc");
    FilterNoConstraint(cs, f);
  }

  // All four fields at once.

  lemma CombinedFour(a: Candidate, b: Candidate, c: Candidate, d: Candidate, f: FilterState)
    requires NameQuery(f) == "ali" && f.position == "Frontend Developer" && f.status == "Hired"
    requires ExperienceQuery(f) == Some(Finite(4))
    requires a.status == "New" && b.position == "Backend Developer" && c.position == "Designer"
    requires Includes(ToLower(d.name), "ali")
    requires d.position == "Frontend Developer" && d.status == "Hired" && d.experience == 4
    ensures FilterCandidates([a, b, c, d], f) == [d]
  {
    assert Matches(f, d);
    assert !Matches(f, a) && !Matches(f, b) && !Matches(f, c);
    SelectFour(a, b, c, d, Matcher(f));
  }

  lemma TrimFour()
    ensures Trim("4") == "4"
  {
    TrimUnpadded("4");
  }

  lemma NumberFour()
    ensures ToNumber("4") == Finite(4)
  {
    assert Decimal(4) == "4";
    ToNumberOfDecimal(4);
  }

  /** All four filters at once give id 4. */
  lemma CombinedFilters()
    ensures FilterCandidates(Fixture(), FilterState("ali", "Frontend Developer", "Hired", "4")) == [Alicia()]
  {
    AliInAlicia();
    TrimLowerAli();
    LowerAli();
    TrimFour();
    NumberFour();
    CombinedFour(Alice(), Bob(), Charlie(), Alicia(), FilterState("ali", "Frontend Developer", "Hired", "4"));
  }
}
