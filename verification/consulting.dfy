/** The online retrieval path of app/src/services/consulting_service.py:
    default greeting, the additional-info rule, and the per-part retrieval loop.

    The LLM call, the embedding call and the Milvus search are parameters of
    the model; each may fail, and a failure propagates to the caller exactly
    as the Python exception does (there is no per-part isolation). */
module Consulting {
  import opened Results
  import opened Filter

  /** `limit=5` of every vector search. */
  const Limit: nat := 5

  const DefaultGreeting := "Hi there, how can I help you today?"

  /** The embedding of a summary (float16 values in the source; only their identity matters here). */
  type Vector = seq<real>

  /** One entry of `analysis`: the collection to search and the text to embed. */
  datatype Part = Part(part: string, summary: string)

  /** The dict the LLM reply becomes: `polite_reply` and `analysis` may be
      missing (the schema's `required` list sits outside `parameters`), and
      `gender`/`season` are added by `addition_info_append`. */
  datatype Task = Task(
    politeReply: Option<string>,
    analysis: Option<seq<Part>>,
    gender: Option<Value>,
    season: Option<Value>)

  /** The search service keeps Milvus' promise: never more ids than `limit`. */
  ghost predicate HonoursLimit(search: (string, Vector, nat, string) -> Result<seq<int>>) {
    forall c, v, l, e :: search(c, v, l, e).Success? ==> |search(c, v, l, e).value| <= l
  }

  /** The greeting rule of `consulting_main`: a missing `polite_reply` is
      replaced by the fixed default; a present one is never touched. */
  function FillGreeting(reply: Task): (r: Task)
    ensures r.politeReply.Some?
    ensures reply.politeReply.Some? ==> r == reply
    ensures reply.politeReply.None? ==>
              r.politeReply == Some(DefaultGreeting) && r.(politeReply := None) == reply
  {
    if reply.politeReply.None? then reply.(politeReply := Some(DefaultGreeting)) else reply
  }

  /** Python truthiness of `additional_info`: None and the empty dict are false. */
  predicate Truthy(info: Option<map<string, Value>>) {
    info.Some? && info.value != map[]
  }

  /** The two reads in the `try` block: `gender` first, then `season`; a
      missing key raises KeyError for that key. */
  function ReadInfo(info: map<string, Value>): (r: Result<(Value, Value)>)
    ensures r.Success? <==> "gender" in info && "season" in info
    ensures r.Success? ==> r.value == (info["gender"], info["season"])
    ensures "gender" !in info ==> r == Failure(KeyError("gender"))
    ensures "gender" in info && "season" !in info ==> r == Failure(KeyError("season"))
  {
    if "gender" !in info then Failure(KeyError("gender"))
    else if "season" !in info then Failure(KeyError("season"))
    else Success((info["gender"], info["season"]))
  }

  /** The copy branch of `addition_info_append` completes: the info is truthy
      and both reads succeed. Otherwise the `else` branch or the handler
      applies the defaults. */
  predicate Complete(info: Option<map<string, Value>>): (b: bool)
    ensures b <==> Truthy(info) && ReadInfo(info.value).Success?
    ensures info.None? || info == Some(map[]) ==> !b
  {
    Truthy(info) && "gender" in info.value && "season" in info.value
  }

  /** `addition_info_append`: both fields come from the additional info, or
      both take the defaults ('3', None); a missing key raises KeyError part
      way through and the handler resets both, so the two are never mixed. */
  function AdditionInfoAppend(task: Task, info: Option<map<string, Value>>): (r: Task)
    ensures r.politeReply == task.politeReply && r.analysis == task.analysis
    ensures Complete(info) ==>
              r.gender == Some(info.value["gender"]) && r.season == Some(info.value["season"])
    ensures !Complete(info) ==> r.gender == Some(Str("3")) && r.season == Some(PyNone)
  {
    if Complete(info) then
      task.(gender := Some(info.value["gender"]), season := Some(info.value["season"]))
    else
      task.(gender := Some(Str("3")), season := Some(PyNone))
  }

  /** The work the loop body does for one part, in the order the code does it:
      embed the summary, build the request's filter, search the part's collection. */
  function PartStep(p: Part, fd: FilterDict, embed: string -> Result<Vector>,
                       search: (string, Vector, nat, string) -> Result<seq<int>>): (r: Result<seq<int>>)
    ensures embed(p.summary).Failure? ==> r == Failure(embed(p.summary).error)
    ensures embed(p.summary).Success? && BuildFilterExpr(fd).Failure? ==> r == Failure(TypeError)
    ensures r.Success? ==>
              embed(p.summary).Success? && BuildFilterExpr(fd).Success? &&
              r == search(p.part, embed(p.summary).value, Limit, BuildFilterExpr(fd).value)
  {
    var vector :- embed(p.summary);
    var expr :- BuildFilterExpr(fd);
    search(p.part, vector, Limit, expr)
  }

  function Names(a: seq<Part>): set<string> {
    set i | 0 <= i < |a| :: a[i].part
  }

  /** `a[i]` is the last part in `a` with its name. */
  predicate IsLast(a: seq<Part>, i: int)
    requires 0 <= i < |a|
  {
    forall j :: i < j < |a| ==> a[j].part != a[i].part
  }

  /** The loop of `retriever` from the map `acc` built so far over the parts
      still to visit; the first failing part aborts the loop with its error. */
  function RetrieveFrom(a: seq<Part>, fd: FilterDict, embed: string -> Result<Vector>,
                        search: (string, Vector, nat, string) -> Result<seq<int>>,
                        acc: map<string, seq<int>>): (r: Result<map<string, seq<int>>>)
    ensures r.Success? <==> forall i :: 0 <= i < |a| ==> PartStep(a[i], fd, embed, search).Success?
    decreases |a|
  {
    if a == [] then Success(acc)
    else
      var ids :- PartStep(a[0], fd, embed, search);
      assert forall i :: 1 <= i < |a| ==> a[1..][i - 1] == a[i];
      RetrieveFrom(a[1..], fd, embed, search, acc[a[0].part := ids])
  }

  /** A failed loop fails with the error of the first part whose step failed. */
  lemma {:induction false} RetrieveFromFirstError(a: seq<Part>, fd: FilterDict, embed: string -> Result<Vector>,
                                                  search: (string, Vector, nat, string) -> Result<seq<int>>,
                                                  acc: map<string, seq<int>>)
    requires RetrieveFrom(a, fd, embed, search, acc).Failure?
    ensures exists k :: 0 <= k < |a| && PartStep(a[k], fd, embed, search).Failure? &&
              RetrieveFrom(a, fd, embed, search, acc).error == PartStep(a[k], fd, embed, search).error &&
              forall i :: 0 <= i < k ==> PartStep(a[i], fd, embed, search).Success?
    decreases |a|
  {
    var step := PartStep(a[0], fd, embed, search);
    if step.Failure? {
      assert RetrieveFrom(a, fd, embed, search, acc).error == step.error;
    } else {
      var acc' := acc[a[0].part := step.value];
      assert RetrieveFrom(a, fd, embed, search, acc) == RetrieveFrom(a[1..], fd, embed, search, acc');
      RetrieveFromFirstError(a[1..], fd, embed, search, acc');
      var k :| 0 <= k < |a[1..]| && PartStep(a[1..][k], fd, embed, search).Failure? &&
               RetrieveFrom(a[1..], fd, embed, search, acc').error == PartStep(a[1..][k], fd, embed, search).error &&
               forall i :: 0 <= i < k ==> PartStep(a[1..][i], fd, embed, search).Success?;
      assert a[k + 1] == a[1..][k];
      assert forall i :: 1 <= i < k + 1 ==> a[i] == a[1..][i - 1];
    }
  }

  lemma NamesCons(a: seq<Part>)
    requires a != []
    ensures Names(a) == {a[0].part} + Names(a[1..])
  {
    forall name | name in Names(a) ensures name in {a[0].part} + Names(a[1..]) {
      var i :| 0 <= i < |a| && a[i].part == name;
      if i > 0 { assert a[1..][i - 1] == a[i]; }
    }
    forall name | name in Names(a[1..]) ensures name in Names(a) {
      var i :| 0 <= i < |a[1..]| && a[1..][i].part == name;
      assert a[i + 1] == a[1..][i];
    }
  }

  /** On success the map holds exactly the names seen plus those already in
      `acc`; a name's ids are those of its last part, and names not visited
      keep their earlier ids. */
  lemma {:induction false} RetrieveFromContents(a: seq<Part>, fd: FilterDict, embed: string -> Result<Vector>,
                                                search: (string, Vector, nat, string) -> Result<seq<int>>,
                                                acc: map<string, seq<int>>)
    requires RetrieveFrom(a, fd, embed, search, acc).Success?
    ensures var r := RetrieveFrom(a, fd, embed, search, acc).value;
            && r.Keys == acc.Keys + Names(a)
            && (forall i :: 0 <= i < |a| && IsLast(a, i) ==>
                  PartStep(a[i], fd, embed, search).Success? &&
                  r[a[i].part] == PartStep(a[i], fd, embed, search).value)
            && (forall name :: name in acc && name !in Names(a) ==> r[name] == acc[name])
    decreases |a|
  {
    if a != [] {
      var ids := PartStep(a[0], fd, embed, search).value;
      var acc' := acc[a[0].part := ids];
      RetrieveFromContents(a[1..], fd, embed, search, acc');
      NamesCons(a);
      var r := RetrieveFrom(a, fd, embed, search, acc).value;
      assert r == RetrieveFrom(a[1..], fd, embed, search, acc').value;
      forall i | 0 <= i < |a| && IsLast(a, i)
        ensures PartStep(a[i], fd, embed, search).Success?
        ensures r[a[i].part] == PartStep(a[i], fd, embed, search).value
      {
        if i == 0 {
          assert a[0].part !in Names(a[1..]);
        } else {
          assert a[1..][i - 1] == a[i];
          assert IsLast(a[1..], i - 1);
        }
      }
    }
  }

  /** `retriever`: the filter dict is read from the request first (KeyError
      when a field is missing), then every part is searched with the filter
      built from the request-level gender and season. */
  function Retriever(task: Task, embed: string -> Result<Vector>,
                        search: (string, Vector, nat, string) -> Result<seq<int>>): (r: Result<map<string, seq<int>>>)
    ensures task.gender.None? ==> r == Failure(KeyError("gender"))
    ensures task.gender.Some? && task.season.None? ==> r == Failure(KeyError("season"))
    ensures task.gender.Some? && task.season.Some? && task.analysis.None? ==> r == Failure(KeyError("analysis"))
    ensures r.Success? ==> task.analysis.Some? && task.season.Some?
    ensures r.Success? && task.analysis.value != [] ==> BuildFilterExpr(FilterDict(task.gender, task.season)).Success?
  {
    if task.gender.None? then Failure(KeyError("gender"))
    else if task.season.None? then Failure(KeyError("season"))
    else if task.analysis.None? then Failure(KeyError("analysis"))
    else
      var a := task.analysis.value;
      var fd := FilterDict(task.gender, task.season);
      RetrieveFrom(a, fd, embed, search, map[])
  }

  /** The result's keys are exactly the part names of the analysis, and a
      repeated name keeps the ids of its last part. */
  lemma RetrieverContents(task: Task, embed: string -> Result<Vector>,
                          search: (string, Vector, nat, string) -> Result<seq<int>>)
    requires Retriever(task, embed, search).Success?
    ensures var r := Retriever(task, embed, search).value;
            var a := task.analysis.value;
            var fd := FilterDict(task.gender, task.season);
            && r.Keys == Names(a)
            && forall i :: 0 <= i < |a| && IsLast(a, i) ==>
                 PartStep(a[i], fd, embed, search).Success? &&
                 r[a[i].part] == PartStep(a[i], fd, embed, search).value
  {
    RetrieveFromContents(task.analysis.value, FilterDict(task.gender, task.season), embed, search, map[]);
  }

  /** Every part of one request is searched with the same expression, the one
      built from the request-level gender and season, and every id list is
      exactly what the search returned for the part's collection. */
  lemma RetrieverSharesFilter(task: Task, embed: string -> Result<Vector>,
                              search: (string, Vector, nat, string) -> Result<seq<int>>)
    requires Retriever(task, embed, search).Success?
    ensures var r := Retriever(task, embed, search).value;
            var a := task.analysis.value;
            var e := BuildFilterExpr(FilterDict(task.gender, task.season));
            (a != [] ==> e.Success?) &&
            forall name :: name in r ==>
              exists i :: 0 <= i < |a| && a[i].part == name &&
                embed(a[i].summary).Success? &&
                r[name] == search(name, embed(a[i].summary).value, Limit, e.value).value
  {
    var r := Retriever(task, embed, search).value;
    var a := task.analysis.value;
    var fd := FilterDict(task.gender, task.season);
    RetrieverContents(task, embed, search);
    if a != [] {
      assert PartStep(a[0], fd, embed, search).Success?;
    }
    forall name | name in r
      ensures exists i :: 0 <= i < |a| && a[i].part == name &&
                embed(a[i].summary).Success? &&
                r[name] == search(name, embed(a[i].summary).value, Limit, BuildFilterExpr(fd).value).value
    {
      LastOccurrence(a, name);
      var i :| 0 <= i < |a| && a[i].part == name && IsLast(a, i);
      assert PartStep(a[i], fd, embed, search).Success?;
    }
  }

  /** Each id list holds at most `limit` = 5 ids when the search service keeps its promise. */
  lemma RetrieverRespectsLimit(task: Task, embed: string -> Result<Vector>,
                               search: (string, Vector, nat, string) -> Result<seq<int>>)
    requires Retriever(task, embed, search).Success?
    requires HonoursLimit(search)
    ensures forall name :: name in Retriever(task, embed, search).value ==>
              |Retriever(task, embed, search).value[name]| <= Limit
  {
    var r := Retriever(task, embed, search).value;
    var a := task.analysis.value;
    var fd := FilterDict(task.gender, task.season);
    RetrieverContents(task, embed, search);
    forall name | name in r ensures |r[name]| <= Limit {
      LastOccurrence(a, name);
      var i :| 0 <= i < |a| && a[i].part == name && IsLast(a, i);
      assert PartStep(a[i], fd, embed, search).Success?;
    }
  }

  /** Every name in `a` has a last occurrence. */
  lemma {:induction false} LastOccurrence(a: seq<Part>, name: string)
    requires name in Names(a)
    ensures exists i :: 0 <= i < |a| && a[i].part == name && IsLast(a, i)
    decreases |a|
  {
    var n := |a| - 1;
    if a[n].part == name {
      assert IsLast(a, n);
    } else {
      var front := a[..n];
      var i :| 0 <= i < |a| && a[i].part == name;
      assert front[i] == a[i];
      assert name in Names(front);
      LastOccurrence(front, name);
      var k :| 0 <= k < |front| && front[k].part == name && IsLast(front, k);
      assert a[k] == front[k];
      assert forall j :: k < j < n ==> a[j] == front[j];
      assert IsLast(a, k);
    }
  }

  /** `consulting_main`: the greeting (defaulted when absent) and the part map. */
  function ConsultingMain(prompt: string, info: Option<map<string, Value>>,
                             llm: string -> Result<Task>, embed: string -> Result<Vector>,
                             search: (string, Vector, nat, string) -> Result<seq<int>>)
    : (r: Result<(string, map<string, seq<int>>)>)
    ensures llm(prompt).Failure? ==> r == Failure(llm(prompt).error)
    ensures r.Success? && llm(prompt).value.politeReply.Some? ==> r.value.0 == llm(prompt).value.politeReply.value
    ensures r.Success? && llm(prompt).value.politeReply.None? ==> r.value.0 == DefaultGreeting
    ensures r.Success? ==> llm(prompt).value.analysis.Some?
  {
    var reply :- llm(prompt);
    var response := FillGreeting(reply);
    var task := AdditionInfoAppend(response, info);
    var ids :- Retriever(task, embed, search);
    Success((response.politeReply.value, ids))
  }

  /** With no parts to search, no filter is ever built, so even the default
      None season gives an empty result rather than an error. */
  lemma NoPartsNoFilter(task: Task, embed: string -> Result<Vector>,
                           search: (string, Vector, nat, string) -> Result<seq<int>>)
    requires task.gender.Some? && task.season.Some? && task.analysis == Some([])
    ensures Retriever(task, embed, search) == Success(map[])
  {
  }

  /** A request without usable additional info stores the season None; once
      the first part's summary embeds, the season loop raises TypeError, so
      the whole request fails. */
  lemma DefaultRequestFails(prompt: string, info: Option<map<string, Value>>,
                               llm: string -> Result<Task>, embed: string -> Result<Vector>,
                               search: (string, Vector, nat, string) -> Result<seq<int>>)
    requires !(Complete(info))
    requires llm(prompt).Success? && llm(prompt).value.analysis.Some?
    requires var a := llm(prompt).value.analysis.value;
             |a| > 0 && embed(a[0].summary).Success?
    ensures ConsultingMain(prompt, info, llm, embed, search) == Failure(TypeError)
  {
    var task := AdditionInfoAppend(FillGreeting(llm(prompt).value), info);
    var a := task.analysis.value;
    var fd := FilterDict(task.gender, task.season);
    assert BuildFilterExpr(fd) == Failure(TypeError);
    assert PartStep(a[0], fd, embed, search) == Failure(TypeError);
    var r := RetrieveFrom(a, fd, embed, search, map[]);
    assert r.Failure?;
    var k :| 0 <= k < |a| && r.error == PartStep(a[k], fd, embed, search).error;
    assert PartStep(a[k], fd, embed, search) == Failure(TypeError);
  }

  // ---------------------------------------------------------------------------
  // Corrected default: an empty season list where the code stores None.
  // ---------------------------------------------------------------------------

  /** `addition_info_append` with the evidently intended default "no season
      filter" written as an empty list instead of None. */
  function AdditionInfoAppendNoneSafe(task: Task, info: Option<map<string, Value>>): (r: Task)
    ensures !(Complete(info)) ==>
              BuildFilterExpr(FilterDict(r.gender, r.season)) == Success("gender in [3]")
    ensures Complete(info) ==>
              r == AdditionInfoAppend(task, info)
  {
    if Complete(info) then
      AdditionInfoAppend(task, info)
    else
      var r := task.(gender := Some(Str("3")), season := Some(List([])));
      assert GenderPart(r.gender) == [GenderIn(UnisexOnly)];
      assert SeasonClauses([]) == [];
      assert SeasonItems(List([])) == Success([]);
      assert GenderPart(r.gender) + SeasonClauses([]) == [GenderIn(UnisexOnly)];
      assert Clauses(FilterDict(r.gender, r.season)) == Success([GenderIn(UnisexOnly)]);
      assert RenderAll([GenderIn(UnisexOnly)]) == ["gender in [3]"];
      r
  }

  /** With the corrected default, a request without additional info fails
      only when a service call fails, and its filter admits unisex items only. */
  lemma NoneSafeDefaultRetrieves(task: Task, embed: string -> Result<Vector>,
                                    search: (string, Vector, nat, string) -> Result<seq<int>>, m: Meta)
    requires task.analysis.Some?
    ensures var t := AdditionInfoAppendNoneSafe(task, None);
            var a := task.analysis.value;
            Retriever(t, embed, search).Success? <==>
              forall i :: 0 <= i < |a| ==>
                embed(a[i].summary).Success? &&
                search(a[i].part, embed(a[i].summary).value, Limit, "gender in [3]").Success?
    ensures Admits(Clauses(FilterDict(Some(Str("3")), Some(List([])))).value, m) <==> m.gender == 3
  {
    var t := AdditionInfoAppendNoneSafe(task, None);
    var fd := FilterDict(t.gender, t.season);
    assert BuildFilterExpr(fd) == Success("gender in [3]");
    FilterMeaning(FilterDict(Some(Str("3")), Some(List([]))), m);
  }
}
