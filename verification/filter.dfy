/** The metadata filter that narrows every vector search: `build_filter_expr`
    of app/src/services/consulting_service.py.

    The builder receives a Python dict whose `gender` and `season` entries may
    be absent or hold any Python value.  `Value` keeps the distinctions the code
    is sensitive to: `gender_val == '1'` is false for the integer 1, and
    `for s in season_list` raises TypeError when the season is None. */
module Filter {
  import opened Results

  /** The Python values that reach the builder. */
  datatype Value = PyNone | Str(s: string) | Int(i: int) | List(items: seq<Value>)

  /** The `filter_dict` argument: `None` stands for a missing key. */
  datatype FilterDict = FilterDict(gender: Option<Value>, season: Option<Value>)

  datatype Season = Spring | Summer | Autumn | Winter

  /** The gender a clause asks for; each admits its own code and unisex (3). */
  datatype GenderRequest = ManOrUnisex | WomanOrUnisex | UnisexOnly

  /** One conjunct of the Milvus boolean expression. */
  datatype Clause = GenderIn(request: GenderRequest) | SeasonFlag(season: Season)

  /** The scalar fields of a stored garment record that a filter can test. */
  datatype Meta = Meta(gender: int, spring: int, summer: int, autumn: int, winter: int)

  function SeasonName(s: Season): string {
    match s
    case Spring => "spring"
    case Summer => "summer"
    case Autumn => "autumn"
    case Winter => "winter"
  }

  function Flag(m: Meta, s: Season): int {
    match s
    case Spring => m.spring
    case Summer => m.summer
    case Autumn => m.autumn
    case Winter => m.winter
  }

  /** The season a loop item names, if any: only the exact lower-case strings count. */
  function SeasonOf(v: Value): (r: Option<Season>)
    ensures forall s :: r == Some(s) <==> v == Str(SeasonName(s))
  {
    match v
    case Str(t) =>
      if t == "spring" then Some(Spring)
      else if t == "summer" then Some(Summer)
      else if t == "autumn" then Some(Autumn)
      else if t == "winter" then Some(Winter)
      else None
    case _ => None
  }

  /** The gender clause for the `gender` entry: only the strings "1", "2" and
      "3" produce one; every other value, an absent key included, yields none. */
  function GenderClauseOf(g: Option<Value>): (r: Option<Clause>)
    ensures r == Some(GenderIn(ManOrUnisex)) <==> g == Some(Str("1"))
    ensures r == Some(GenderIn(WomanOrUnisex)) <==> g == Some(Str("2"))
    ensures r == Some(GenderIn(UnisexOnly)) <==> g == Some(Str("3"))
    ensures r.None? <==> g !in {Some(Str("1")), Some(Str("2")), Some(Str("3"))}
  {
    match g
    case Some(Str(t)) =>
      if t == "1" then Some(GenderIn(ManOrUnisex))
      else if t == "2" then Some(GenderIn(WomanOrUnisex))
      else if t == "3" then Some(GenderIn(UnisexOnly))
      else None
    case _ => None
  }

  /** What `for s in season_list` visits: a list's items, a string's
      one-character strings; None and integers are not iterable. */
  function SeasonItems(v: Value): (r: Result<seq<Value>>)
    ensures r.Failure? <==> v.PyNone? || v.Int?
    ensures r.Failure? ==> r.error == TypeError
    ensures v.List? ==> r == Success(v.items)
    ensures v.Str? ==> r.Success? && |r.value| == |v.s|
  {
    match v
    case List(items) => Success(items)
    case Str(t) => Success(seq(|t|, i requires 0 <= i < |t| => Str([t[i]])))
    case _ => Failure(TypeError)
  }

  /** The season clauses the loop appends, one per recognised item, in input order. */
  function SeasonClauses(items: seq<Value>): (r: seq<Clause>)
    ensures |r| <= |items|
    ensures forall i :: 0 <= i < |r| ==> r[i].SeasonFlag?
  {
    if items == [] then []
    else HeadClause(items[0]) + SeasonClauses(items[1..])
  }

  /** No clause at all exactly when no item names a season. */
  lemma {:induction false} SeasonClausesEmpty(items: seq<Value>)
    ensures SeasonClauses(items) == [] <==> forall s :: Str(SeasonName(s)) !in items
  {
    if items != [] {
      SeasonClausesEmpty(items[1..]);
      assert forall v :: v in items <==> v == items[0] || v in items[1..];
    }
  }

  /** The clause one loop item contributes: one for a season name, none otherwise. */
  function HeadClause(v: Value): seq<Clause> {
    match SeasonOf(v) case Some(s) => [SeasonFlag(s)] case None => []
  }

  /** The gender block's contribution to `expr_list`: at most one clause. */
  function GenderPart(g: Option<Value>): (r: seq<Clause>)
    ensures r == [] <==> GenderClauseOf(g).None?
    ensures GenderClauseOf(g).Some? ==> r == [GenderClauseOf(g).value]
  {
    match GenderClauseOf(g) case Some(c) => [c] case None => []
  }

  /** The clause list `expr_list` holds after both blocks of the builder. */
  function Clauses(fd: FilterDict): (r: Result<seq<Clause>>)
    ensures r.Failure? <==> fd.season.Some? && SeasonItems(fd.season.value).Failure?
    ensures r.Success? && GenderClauseOf(fd.gender).Some? ==>
              |r.value| > 0 && r.value[0] == GenderClauseOf(fd.gender).value
    ensures r.Success? ==>
              forall i :: (if GenderClauseOf(fd.gender).Some? then 1 else 0) <= i < |r.value| ==>
                r.value[i].SeasonFlag?
  {
    if fd.season.None? then Success(GenderPart(fd.gender))
    else
      var items :- SeasonItems(fd.season.value);
      Success(GenderPart(fd.gender) + SeasonClauses(items))
  }

  /** The text of one clause in Milvus' expression language. */
  function Render(c: Clause): (r: string)
    ensures |r| > 0
    ensures c.SeasonFlag? ==> r == SeasonName(c.season) + " == 1"
  {
    match c
    case GenderIn(ManOrUnisex) => "gender in [1,3]"
    case GenderIn(WomanOrUnisex) => "gender in [2,3]"
    case GenderIn(UnisexOnly) => "gender in [3]"
    case SeasonFlag(Spring) => "spring == 1"
    case SeasonFlag(Summer) => "summer == 1"
    case SeasonFlag(Autumn) => "autumn == 1"
    case SeasonFlag(Winter) => "winter == 1"
  }

  function RenderAll(cs: seq<Clause>): (r: seq<string>)
    ensures |r| == |cs|
    ensures forall i :: 0 <= i < |cs| ==> r[i] == Render(cs[i])
  {
    seq(|cs|, i requires 0 <= i < |cs| => Render(cs[i]))
  }

  const Separator := " and "

  /** Python's `sep.join(parts)`. */
  function Join(parts: seq<string>, sep: string): (r: string)
    ensures |parts| > 0 ==> parts[0] <= r
    ensures |parts| > 1 ==> parts[0] + sep <= r
  {
    if parts == [] then ""
    else if |parts| == 1 then parts[0]
    else parts[0] + sep + Join(parts[1..], sep)
  }

  /** The joined text ends with the last part. */
  lemma {:induction false} JoinEndsWithLast(parts: seq<string>, sep: string)
    requires |parts| > 0
    ensures var r, l := Join(parts, sep), parts[|parts| - 1];
            |l| <= |r| && r[|r| - |l|..] == l
  {
    if |parts| > 1 {
      JoinEndsWithLast(parts[1..], sep);
    }
  }

  /** With no empty part, the joined text is empty exactly when there are no parts. */
  lemma JoinEmptyIff(parts: seq<string>, sep: string)
    requires forall i :: 0 <= i < |parts| ==> |parts[i]| > 0
    ensures Join(parts, sep) == "" <==> parts == []
  {
    if |parts| > 0 {
      assert parts[0] <= Join(parts, sep);
    }
  }

  /** The request asks for season `s`: the season entry is iterable and one of its items is the season's name. */
  predicate Requested(fd: FilterDict, s: Season) {
    fd.season.Some? && SeasonItems(fd.season.value).Success? &&
    Str(SeasonName(s)) in SeasonItems(fd.season.value).value
  }

  lemma ClausesEmptyIff(fd: FilterDict)
    requires Clauses(fd).Success?
    ensures Clauses(fd).value == [] <==> GenderClauseOf(fd.gender).None? && forall s :: !Requested(fd, s)
  {
    if fd.season.Some? {
      var items := SeasonItems(fd.season.value).value;
      assert Clauses(fd).value == GenderPart(fd.gender) + SeasonClauses(items);
      SeasonClausesEmpty(items);
      if forall s :: !Requested(fd, s) {
        forall s ensures Str(SeasonName(s)) !in items { assert !Requested(fd, s); }
      }
    }
  }

  /** `build_filter_expr`: the clauses joined by " and ", or "" when there are none. */
  function BuildFilterExpr(fd: FilterDict): (r: Result<string>)
    ensures r.Failure? <==> fd.season.Some? && (fd.season.value.PyNone? || fd.season.value.Int?)
    ensures r.Failure? ==> r.error == TypeError
    ensures r.Success? ==> r.value == Join(RenderAll(Clauses(fd).value), Separator)
    ensures r.Success? ==>
              (r.value == "" <==> GenderClauseOf(fd.gender).None? && forall s :: !Requested(fd, s))
    ensures r.Success? && GenderClauseOf(fd.gender).Some? ==>
              Render(GenderClauseOf(fd.gender).value) <= r.value
  {
    var cs :- Clauses(fd);
    ClausesEmptyIff(fd);
    if cs != [] then Success(Join(RenderAll(cs), Separator)) else Success("")
  }

  // ---------------------------------------------------------------------------
  // Meaning of a filter over stored records
  // ---------------------------------------------------------------------------

  predicate Holds(c: Clause, m: Meta) {
    match c
    case GenderIn(ManOrUnisex) => m.gender == 1 || m.gender == 3
    case GenderIn(WomanOrUnisex) => m.gender == 2 || m.gender == 3
    case GenderIn(UnisexOnly) => m.gender == 3
    case SeasonFlag(s) => Flag(m, s) == 1
  }

  /** A record passes an expression when it satisfies every conjunct; the empty expression passes everything. */
  predicate Admits(cs: seq<Clause>, m: Meta) {
    forall i :: 0 <= i < |cs| ==> Holds(cs[i], m)
  }

  /** The inclusive gender policy, stated on the request value: man or woman
      also accept unisex items, "3" accepts only unisex, anything else accepts all. */
  predicate GenderAccepts(g: Option<Value>, code: int) {
    && (g == Some(Str("1")) ==> code == 1 || code == 3)
    && (g == Some(Str("2")) ==> code == 2 || code == 3)
    && (g == Some(Str("3")) ==> code == 3)
  }

  lemma {:induction false} AdmitsAppend(a: seq<Clause>, b: seq<Clause>, m: Meta)
    ensures Admits(a + b, m) <==> Admits(a, m) && Admits(b, m)
  {
    if Admits(a, m) && Admits(b, m) {
      forall i | 0 <= i < |a + b| ensures Holds((a + b)[i], m) {
        if i < |a| { assert (a + b)[i] == a[i]; } else { assert (a + b)[i] == b[i - |a|]; }
      }
    }
    if Admits(a + b, m) {
      forall i | 0 <= i < |a| ensures Holds(a[i], m) { assert a[i] == (a + b)[i]; }
      forall i | 0 <= i < |b| ensures Holds(b[i], m) { assert b[i] == (a + b)[|a| + i]; }
    }
  }

  /** Season clauses accept a record exactly when it is flagged for every named season. */
  lemma {:induction false} SeasonClausesAdmit(items: seq<Value>, m: Meta)
    ensures Admits(SeasonClauses(items), m) <==>
            forall s :: Str(SeasonName(s)) in items ==> Flag(m, s) == 1
  {
    if items != [] {
      var head := HeadClause(items[0]);
      assert SeasonClauses(items) == head + SeasonClauses(items[1..]);
      SeasonClausesAdmit(items[1..], m);
      AdmitsAppend(head, SeasonClauses(items[1..]), m);
      assert Admits(head, m) <==> forall s :: items[0] == Str(SeasonName(s)) ==> Flag(m, s) == 1 by {
        match SeasonOf(items[0]) {
          case Some(t) =>
            assert head == [SeasonFlag(t)];
            assert Admits(head, m) <==> Holds(head[0], m);
            forall s ensures items[0] == Str(SeasonName(s)) <==> s == t {
              assert SeasonOf(items[0]) == Some(s) <==> items[0] == Str(SeasonName(s));
            }
          case None =>
            assert head == [];
            forall s ensures items[0] != Str(SeasonName(s)) {
              assert SeasonOf(items[0]) == Some(s) <==> items[0] == Str(SeasonName(s));
            }
        }
      }
      assert forall v :: v in items <==> v == items[0] || v in items[1..];
    }
  }

  /** A record passes the built filter exactly when its gender is compatible
      with the request and it is flagged for every requested season. */
  lemma FilterMeaning(fd: FilterDict, m: Meta)
    requires Clauses(fd).Success?
    ensures Admits(Clauses(fd).value, m) <==>
            GenderAccepts(fd.gender, m.gender) && forall s :: Requested(fd, s) ==> Flag(m, s) == 1
  {
    var genderPart := GenderPart(fd.gender);
    if fd.season.Some? {
      var items := SeasonItems(fd.season.value).value;
      assert Clauses(fd).value == genderPart + SeasonClauses(items);
      AdmitsAppend(genderPart, SeasonClauses(items), m);
      SeasonClausesAdmit(items, m);
    }
  }

  /** Reordering or repeating season names never changes which records pass,
      even though the expression text follows the input order. */
  lemma SeasonOrderIrrelevant(g: Option<Value>, a: seq<Value>, b: seq<Value>, m: Meta)
    requires forall s :: Str(SeasonName(s)) in a <==> Str(SeasonName(s)) in b
    ensures Admits(Clauses(FilterDict(g, Some(List(a)))).value, m) <==>
            Admits(Clauses(FilterDict(g, Some(List(b)))).value, m)
  {
    FilterMeaning(FilterDict(g, Some(List(a))), m);
    FilterMeaning(FilterDict(g, Some(List(b))), m);
  }

  /** Each recognised name contributes exactly one clause for its season. */
  lemma {:induction false} SeasonClausesCount(items: seq<Value>, s: Season)
    ensures multiset(SeasonClauses(items))[SeasonFlag(s)] == multiset(items)[Str(SeasonName(s))]
  {
    if items != [] {
      var rest := items[1..];
      HeadClauseCount(items[0], s);
      SeasonClausesCount(rest, s);
      assert SeasonClauses(items) == HeadClause(items[0]) + SeasonClauses(rest);
      SeasonClausesSplit(items);
      var c, v := SeasonFlag(s), Str(SeasonName(s));
      assert multiset(SeasonClauses(items))[c] == multiset(HeadClause(items[0]))[c] + multiset(SeasonClauses(rest))[c];
      assert multiset(items)[v] == multiset([items[0]])[v] + multiset(rest)[v];
    }
  }

  lemma SeasonClausesSplit(items: seq<Value>)
    requires items != []
    ensures multiset(SeasonClauses(items)) == multiset(HeadClause(items[0])) + multiset(SeasonClauses(items[1..]))
    ensures multiset(items) == multiset([items[0]]) + multiset(items[1..])
  {
    assert items == [items[0]] + items[1..];
  }

  lemma HeadClauseCount(v: Value, s: Season)
    ensures multiset(HeadClause(v))[SeasonFlag(s)] == multiset([v])[Str(SeasonName(s))]
  {
    assert SeasonOf(v) == Some(s) <==> v == Str(SeasonName(s));
  }

  /** Clauses follow input order: the builder distributes over concatenation. */
  lemma {:induction false} SeasonClausesAppend(a: seq<Value>, b: seq<Value>)
    ensures SeasonClauses(a + b) == SeasonClauses(a) + SeasonClauses(b)
  {
    if a == [] {
      assert a + b == b;
    } else {
      var ab := a + b;
      assert ab[1..] == a[1..] + b;
      var h := HeadClause(a[0]);
      var x := SeasonClauses(a[1..]);
      var y := SeasonClauses(b);
      SeasonClausesAppend(a[1..], b);
      calc {
        SeasonClauses(ab);
        HeadClause(ab[0]) + SeasonClauses(ab[1..]);
        h + (x + y);
        { assert h + (x + y) == (h + x) + y; }
        (h + x) + y;
        SeasonClauses(a) + y;
      }
    }
  }

  /** A bare string as the season value is iterated character by character and
      never names a season, so it adds no clause and raises nothing. */
  lemma {:induction false} StringSeasonAddsNothing(g: Option<Value>, t: string)
    ensures Clauses(FilterDict(g, Some(Str(t)))).Success?
    ensures forall s :: !Requested(FilterDict(g, Some(Str(t))), s)
  {
    var items := SeasonItems(Str(t)).value;
    forall s: Season ensures Str(SeasonName(s)) !in items {
      assert forall k :: 0 <= k < |items| ==> items[k] == Str([t[k]]);
      assert |SeasonName(s)| == 6;
    }
  }

  /** An integer gender is never equal to the strings the builder compares
      against: it contributes no gender clause, so the filter admits records
      of every gender code and tests the season flags only. */
  lemma IntGenderAddsNoClause(n: int, season: Option<Value>, m: Meta)
    requires Clauses(FilterDict(Some(Int(n)), season)).Success?
    ensures GenderClauseOf(Some(Int(n))).None?
    ensures var fd := FilterDict(Some(Int(n)), season);
            Admits(Clauses(fd).value, m) <==> forall s :: Requested(fd, s) ==> Flag(m, s) == 1
  {
    FilterMeaning(FilterDict(Some(Int(n)), season), m);
  }

  /** The documented scenario: a man asking for spring and summer items. */
  lemma ManSpringSummerScenario()
    ensures BuildFilterExpr(FilterDict(Some(Str("1")), Some(List([Str("spring"), Str("summer")]))))
            == Success("gender in [1,3] and spring == 1 and summer == 1")
  {
    SpringSummerExpr(Str("1"), GenderIn(ManOrUnisex));
    ScenarioText(GenderIn(ManOrUnisex));
    ScenarioLiteral();
  }

  /** The example in the builder's own documentation: unisex only, spring and
      summer. */
  lemma DocstringScenario()
    ensures BuildFilterExpr(FilterDict(Some(Str("3")), Some(List([Str("spring"), Str("summer")]))))
            == Success("gender in [3] and spring == 1 and summer == 1")
  {
    SpringSummerExpr(Str("3"), GenderIn(UnisexOnly));
    DocstringText();
  }

  lemma DocstringText()
    ensures Join(RenderAll([GenderIn(UnisexOnly), SeasonFlag(Spring), SeasonFlag(Summer)]), Separator)
            == "gender in [3] and spring == 1 and summer == 1"
  {
    ScenarioText(GenderIn(UnisexOnly));
    DocstringLiteral();
  }

  /** A recognised gender with spring and summer: the expression is the three
      clauses joined in that order. */
  lemma SpringSummerExpr(g: Value, c: Clause)
    requires GenderClauseOf(Some(g)) == Some(c)
    ensures BuildFilterExpr(FilterDict(Some(g), Some(List([Str("spring"), Str("summer")]))))
            == Success(Join(RenderAll([c, SeasonFlag(Spring), SeasonFlag(Summer)]), Separator))
  {
    SpringSummerClauses(g, c);
  }

  lemma SpringSummerClauses(g: Value, c: Clause)
    requires GenderClauseOf(Some(g)) == Some(c)
    ensures Clauses(FilterDict(Some(g), Some(List([Str("spring"), Str("summer")]))))
            == Success([c, SeasonFlag(Spring), SeasonFlag(Summer)])
  {
    var items := [Str("spring"), Str("summer")];
    assert items[1..] == [Str("summer")];
    assert SeasonClauses(items) == [SeasonFlag(Spring), SeasonFlag(Summer)];
    assert [c] + [SeasonFlag(Spring), SeasonFlag(Summer)] == [c, SeasonFlag(Spring), SeasonFlag(Summer)];
  }

  lemma ScenarioText(g: Clause)
    ensures Join(RenderAll([g, SeasonFlag(Spring), SeasonFlag(Summer)]), Separator)
            == Render(g) + Separator + ("spring == 1" + Separator + "summer == 1")
  {
    var rs := RenderAll([g, SeasonFlag(Spring), SeasonFlag(Summer)]);
    assert rs == [Render(g), "spring == 1", "summer == 1"];
    assert rs[1..][1..] == ["summer == 1"];
    assert Join(rs[1..][1..], Separator) == "summer == 1";
    assert Join(rs[1..], Separator) == "spring == 1" + Separator + "summer == 1";
  }

  lemma ScenarioLiteral()
    ensures "gender in [1,3]" + Separator + ("spring == 1" + Separator + "summer == 1")
            == "gender in [1,3] and spring == 1 and summer == 1"
  {
  }

  lemma DocstringLiteral()
    ensures "gender in [3]" + Separator + ("spring == 1" + Separator + "summer == 1")
            == "gender in [3] and spring == 1 and summer == 1"
  {
  }

  /** The text depends on input order: the same two seasons in the other
      order give different strings. */
  lemma SeasonTextFollowsInputOrder()
    ensures BuildFilterExpr(FilterDict(None, Some(List([Str("summer"), Str("spring")]))))
            != BuildFilterExpr(FilterDict(None, Some(List([Str("spring"), Str("summer")]))))
  {
    var a := FilterDict(None, Some(List([Str("summer"), Str("spring")])));
    var b := FilterDict(None, Some(List([Str("spring"), Str("summer")])));
    SeasonPairClauses(Summer, Spring);
    SeasonPairClauses(Spring, Summer);
    FirstClauseText(a, SeasonFlag(Summer));
    FirstClauseText(b, SeasonFlag(Spring));
    PrefixesDiffer("summer == 1", "spring == 1", BuildFilterExpr(a).value, BuildFilterExpr(b).value);
  }

  lemma PrefixesDiffer(p: string, q: string, x: string, y: string)
    requires p <= x && q <= y
    requires |p| > 1 && |q| > 1 && p[1] != q[1]
    ensures x != y
  {
    assert x[1] == p[1];
  }

  /** Two season names and no gender: one clause per name, in input order. */
  lemma SeasonPairClauses(p: Season, q: Season)
    ensures Clauses(FilterDict(None, Some(List([Str(SeasonName(p)), Str(SeasonName(q))]))))
            == Success([SeasonFlag(p), SeasonFlag(q)])
  {
    var items := [Str(SeasonName(p)), Str(SeasonName(q))];
    assert items[1..] == [Str(SeasonName(q))];
    assert SeasonOf(items[0]) == Some(p);
    assert SeasonOf(items[1]) == Some(q);
    assert SeasonClauses(items[1..]) == [SeasonFlag(q)];
    assert SeasonClauses(items) == [SeasonFlag(p), SeasonFlag(q)];
    assert GenderPart(None) + SeasonClauses(items) == [SeasonFlag(p), SeasonFlag(q)];
    assert SeasonItems(List(items)) == Success(items);
  }

  /** The expression opens with the text of the first clause. */
  lemma FirstClauseText(fd: FilterDict, c: Clause)
    requires Clauses(fd).Success? && |Clauses(fd).value| > 0 && Clauses(fd).value[0] == c
    ensures BuildFilterExpr(fd).Success? && Render(c) <= BuildFilterExpr(fd).value
  {
    var rs := RenderAll(Clauses(fd).value);
    assert rs[0] == Render(c);
  }

  // ---------------------------------------------------------------------------
  // Corrected gender handling: accept the integer codes the web form sends.
  // ---------------------------------------------------------------------------

  /** The integer codes 1, 2 and 3 read as the strings the builder expects;
      every other value is left as it is. */
  function NormalizeGender(g: Option<Value>): (r: Option<Value>)
    ensures g == Some(Int(1)) ==> r == Some(Str("1"))
    ensures g == Some(Int(2)) ==> r == Some(Str("2"))
    ensures g == Some(Int(3)) ==> r == Some(Str("3"))
    ensures !(g.Some? && g.value.Int? && 1 <= g.value.i <= 3) ==> r == g
  {
    match g
    case Some(Int(n)) =>
      if n == 1 then Some(Str("1"))
      else if n == 2 then Some(Str("2"))
      else if n == 3 then Some(Str("3"))
      else g
    case _ => g
  }

  /** The request with its gender normalised. */
  function Lenient(fd: FilterDict): FilterDict {
    fd.(gender := NormalizeGender(fd.gender))
  }

  /** The builder as evidently intended: string requests behave exactly as
      before, and the form's integer codes select the same clause as their
      string spelling. */
  function BuildFilterExprLenient(fd: FilterDict): (r: Result<string>)
    ensures fd.gender.None? || !fd.gender.value.Int? ==> r == BuildFilterExpr(fd)
    ensures r.Failure? <==> BuildFilterExpr(fd).Failure?
    ensures forall n :: fd.gender == Some(Int(n)) && 1 <= n <= 3 && r.Success? ==>
              r.value != "" && Render(GenderClauseOf(Lenient(fd).gender).value) <= r.value
  {
    BuildFilterExpr(Lenient(fd))
  }

  /** With the corrected builder, the form's integer gender `n` in 1..3 keeps
      exactly the records of gender `n` or unisex (unisex only for 3) that
      are flagged for every requested season. */
  lemma FormGenderFiltered(n: int, season: Option<Value>, m: Meta)
    requires 1 <= n <= 3
    requires Clauses(FilterDict(Some(Int(n)), season)).Success?
    ensures var fd := Lenient(FilterDict(Some(Int(n)), season));
            Clauses(fd).Success? &&
            (Admits(Clauses(fd).value, m) <==>
               (m.gender == n || m.gender == 3) && forall s :: Requested(fd, s) ==> Flag(m, s) == 1)
  {
    FilterMeaning(Lenient(FilterDict(Some(Int(n)), season)), m);
  }
}
