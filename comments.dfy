/** `commentData`: a store of comment records (dictionaries with fields such
    as "postId", "id", "name", "email" and "body") that can be searched by a
    field, filtered by a numeric threshold and sorted by a field. The field
    names a search may use are those of the first comment. */
module Comments {
  import opened Wrappers
  import opened PyText
  import opened Sequences

  // ---------------------------------------------------------------------
  // printByVar

  /** The match test of `printByVar` for one comment: a string field matches
      when it contains the search string, ignoring case; a number field when
      it equals the search value; a missing field never matches. */
  predicate MatchesVar(c: Record, field: string, value: Value) {
    && field in c
    && match c[field]
       case Str(t) => value.Str? && ContainsIgnoringCase(t, value.s)
       case Num(n) => value == Num(n)
  }

  function MatchFn(field: string, value: Value): Record -> bool {
    c => MatchesVar(c, field, value)
  }

  /** The search string is lower-cased only when it meets a string field, so
      a numeric search value raises AttributeError exactly there. */
  predicate LowerFails(c: Record, field: string, value: Value) {
    field in c && c[field].Str? && value.Num?
  }

  /** The comments that match, in their original order. */
  function Matches(comments: seq<Record>, field: string, value: Value): (r: seq<Record>)
    ensures exists idx :: (SelectsAt(r, comments, idx)
                           && forall i :: 0 <= i < |comments| ==> (i in idx <==> MatchesVar(comments[i], field, value)))
  {
    var f := MatchFn(field, value);
    KeepSelects(comments, f);
    Keep(comments, f)
  }

  // ---------------------------------------------------------------------
  // printOverVar

  /** The fields of a comment that hold numbers: those `printOverVar` accepts. */
  predicate NumericField(c: Record, field: string) {
    field in c && c[field].Num?
  }

  /** `comment.get(field) > value` can be evaluated: the field is present and
      of the same kind as `value` (otherwise Python raises TypeError). */
  predicate Comparable(c: Record, field: string, value: Value) {
    field in c && SameKind(c[field], value)
  }

  predicate IsOver(c: Record, field: string, value: Value) {
    field in c && Less(value, c[field])
  }

  function OverFn(field: string, value: Value): Record -> bool {
    c => IsOver(c, field, value)
  }

  /** The comments whose field exceeds `value`, in their original order. */
  function Over(comments: seq<Record>, field: string, value: Value): (r: seq<Record>)
    ensures exists idx :: (SelectsAt(r, comments, idx)
                           && forall i :: 0 <= i < |comments| ==> (i in idx <==> IsOver(comments[i], field, value)))
  {
    var f := OverFn(field, value);
    KeepSelects(comments, f);
    Keep(comments, f)
  }

  /** Raising the threshold only removes comments: filtering the comments over
      a lower bound by a higher one gives the comments over the higher bound. */
  lemma OverNarrow(comments: seq<Record>, field: string, lo: int, hi: int)
    requires lo <= hi
    ensures Keep(Over(comments, field, Num(lo)), OverFn(field, Num(hi))) == Over(comments, field, Num(hi))
  {
    KeepNarrow(comments, OverFn(field, Num(lo)), OverFn(field, Num(hi)));
  }

  // ---------------------------------------------------------------------
  // printCommentsSorted

  /** The sort key `x[sortVar]`; only used once every comment has the field. */
  function RecordKey(name: string): Record -> Value {
    c => if name in c then c[name] else Num(0)
  }

  /** Some comment's field differs in kind from the first comment's, so
      `sorted` must compare a number with a string and raises TypeError. */
  predicate MixedKinds(comments: seq<Record>, name: string)
    requires comments != [] && forall i :: 0 <= i < |comments| ==> name in comments[i]
  {
    exists i :: 0 <= i < |comments| && !SameKind(comments[i][name], comments[0][name])
  }

  lemma LowerPrefix(comments: seq<Record>, k: nat, field: string, value: Value)
    requires k < |comments| && !LowerFails(comments[k], field, value)
    requires forall i :: 0 <= i < k ==> !LowerFails(comments[i], field, value)
    ensures forall i :: 0 <= i < k + 1 ==> !LowerFails(comments[i], field, value)
  {
  }

  lemma ComparablePrefix(comments: seq<Record>, k: nat, field: string, value: Value)
    requires k < |comments| && Comparable(comments[k], field, value)
    requires forall i :: 0 <= i < k ==> Comparable(comments[i], field, value)
    ensures forall i :: 0 <= i < k + 1 ==> Comparable(comments[i], field, value)
  {
  }

  // ---------------------------------------------------------------------
  // The store

  class CommentData {
    var comments: seq<Record>

    constructor(comments: seq<Record>)
      ensures this.comments == comments
    {
      this.comments := comments;
    }

    /** `printByVar(var, value)`: the comments that match, in order, or all
        comments when none does. */
    method PrintByVar(field: string, value: Value) returns (r: Result<seq<Record>>)
      ensures r.Err? <==> (|| comments == []
                           || field !in comments[0]
                           || exists i :: 0 <= i < |comments| && LowerFails(comments[i], field, value))
      ensures comments == [] ==> r == Err(IndexError)
      ensures comments != [] && field !in comments[0] ==> r == Err(ValueError)
      ensures comments != [] && field in comments[0] && r.Err? ==> r.error == AttributeError
      ensures r.Ok? ==> r.value == if Matches(comments, field, value) == [] then comments
                                   else Matches(comments, field, value)
    {
      if comments == [] {
        return Err(IndexError);
      }
      if field !in comments[0] {
        return Err(ValueError);
      }
      var found: seq<Record> := [];
      for k := 0 to |comments|
        invariant found == Keep(comments[..k], MatchFn(field, value))
        invariant forall i :: 0 <= i < k ==> !LowerFails(comments[i], field, value)
      {
        var c := comments[k];
        var matches := false;
        if field in c && c[field].Str? {
          if value.Num? {
            return Err(AttributeError);
          }
          matches := ContainsIgnoringCase(c[field].s, value.s);
        } else if field in c && c[field].Num? && c[field] == value {
          matches := true;
        }
        LowerPrefix(comments, k, field, value);
        KeepStep(comments, k, found, MatchFn(field, value), matches);
        if matches {
          found := found + [c];
        }
      }
      assert comments[..|comments|] == comments;
      if found != [] {
        return Ok(found);
      }
      return Ok(comments);
    }

    /** `printOverVar(var, value, limit=limit)`: the first `limit` comments
        (all without a limit) whose field exceeds `value`, in order; `None`
        when there are none. */
    method PrintOverVar(field: string, value: Value, limit: Option<int>) returns (r: Result<Option<seq<Record>>>)
      ensures r.Err? <==> (|| comments == []
                           || !NumericField(comments[0], field)
                           || exists i :: 0 <= i < |comments| && !Comparable(comments[i], field, value))
      ensures comments == [] ==> r == Err(IndexError)
      ensures comments != [] && !NumericField(comments[0], field) ==> r == Err(ValueError)
      ensures comments != [] && NumericField(comments[0], field) && r.Err? ==> r.error == TypeError
      ensures r.Ok? ==> r.value == var t := TakeAtMost(Over(comments, field, value), limit);
                                   if t == [] then None else Some(t)
      ensures r.Ok? && r.value.Some? ==> forall c :: c in r.value.value ==> c in comments && IsOver(c, field, value)
    {
      if comments == [] {
        return Err(IndexError);
      }
      if !NumericField(comments[0], field) {
        return Err(ValueError);
      }
      var found: seq<Record> := [];
      for k := 0 to |comments|
        invariant found == Keep(comments[..k], OverFn(field, value))
        invariant forall i :: 0 <= i < k ==> Comparable(comments[i], field, value)
      {
        var c := comments[k];
        if field !in c {
          return Err(TypeError);
        }
        var over :- Greater(c[field], value);
        ComparablePrefix(comments, k, field, value);
        KeepStep(comments, k, found, OverFn(field, value), over);
        if over {
          found := found + [c];
        }
      }
      assert comments[..|comments|] == comments;
      found := TakeAtMost(found, limit);
      if found != [] {
        return Ok(Some(found));
      }
      return Ok(None);
    }

    /** `printCommentsSorted(sortVar, reverse_param, limit=limit)`: the
        comments stably sorted by a field other than "body", cut to `limit`. */
    function CommentsSorted(sortVar: string, reverse: bool, limit: Option<int>): (r: Result<seq<Record>>)
      reads this
      ensures comments == [] ==> r == Err(IndexError)
      ensures comments != [] && (sortVar == "body" || sortVar !in comments[0]) ==> r == Err(ValueError)
      ensures comments != [] && sortVar != "body" && sortVar in comments[0] ==>
        ((exists i :: 0 <= i < |comments| && sortVar !in comments[i]) <==> r == Err(KeyError))
      ensures r.Ok? <==> (&& comments != [] && sortVar != "body"
                          && (forall i :: 0 <= i < |comments| ==> sortVar in comments[i])
                          && !MixedKinds(comments, sortVar))
      ensures comments != [] && sortVar != "body" && (forall i :: 0 <= i < |comments| ==> sortVar in comments[i]) ==>
        (MixedKinds(comments, sortVar) <==> r == Err(TypeError))
      ensures r.Ok? ==> r.value == TakeAtMost(SortBy(comments, RecordKey(sortVar), reverse), limit)
      ensures r.Ok? ==> forall i, j :: 0 <= i < j < |r.value| ==>
        !Precedes(RecordKey(sortVar)(r.value[j]), RecordKey(sortVar)(r.value[i]), reverse)
      ensures r.Ok? ==> multiset(r.value) <= multiset(comments)
      ensures r.Ok? && limit.None? ==> multiset(r.value) == multiset(comments)
    {
      if comments == [] then Err(IndexError)
      else if sortVar == "body" || sortVar !in comments[0] then Err(ValueError)
      else if exists i :: 0 <= i < |comments| && sortVar !in comments[i] then Err(KeyError)
      else if MixedKinds(comments, sortVar) then Err(TypeError)
      else
        var key := RecordKey(sortVar);
        var sorted := TakeAtMost(SortBy(comments, key, reverse), limit);
        SortedPrefix(comments, key, reverse, limit);
        Ok(sorted)
    }
  }
}
