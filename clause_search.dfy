/**
  `find_clause_index`: look for a clause at or after an offset, then walk
  forward line by line until a line mentions "AM" or "PM", and answer where
  that line starts and the line itself.
*/
module ClauseSearch {
  import opened PyStr

  /** The line test of the walk: the text mentions "AM" or "PM", so it has at least those two letters. */
  predicate HasTime(line: string)
    ensures HasTime(line) ==> 2 <= |line|
  {
    Contains(line, "AM") || Contains(line, "PM")
  }

  /** What a search for the next newline can answer: a newline's position, or -1. */
  predicate IsLineEnd(text: string, e: int)
  {
    e == -1 || (0 <= e < |text| && text[e] == '\n')
  }

  lemma FindNewline(text: string, start: int)
    ensures IsLineEnd(text, Find(text, "\n", start))
  {
    var e := Find(text, "\n", start);
    if e != -1 {
      assert text[e..e + 1] == "\n";
      assert text[e] == text[e..e + 1][0];
    }
  }

  /** Where the walk stands: the line it looks at, the answer so far, and whether it ran out of steps. */
  datatype Outcome = Outcome(index: int, line: string, exhausted: bool)

  /**
    The walk of `find_clause_index` from the line `text[index:next]`, at most
    `fuel` steps: answer the first line that mentions AM or PM, and otherwise
    move to the next line, which starts at the newline and ends at the next
    newline found two characters further on. `line` is the last line looked at.
  */
  function Walk(text: string, index: int, next: int, line: string, fuel: nat): (r: Outcome)
    ensures !r.exhausted ==> HasTime(r.line)
    ensures r.exhausted && 0 < fuel ==> !HasTime(r.line)
    decreases fuel
  {
    if fuel == 0 then Outcome(index, line, true)
    else
      var l := Slice(text, index, next);
      if HasTime(l) then Outcome(index, l, false)
      else Walk(text, next, Find(text, "\n", next + 2), l, fuel - 1)
  }

  /** One step of the walk. */
  lemma WalkStep(text: string, index: int, next: int, line: string, fuel: nat)
    requires 0 < fuel
    ensures HasTime(Slice(text, index, next)) ==>
      Walk(text, index, next, line, fuel) == Outcome(index, Slice(text, index, next), false)
    ensures !HasTime(Slice(text, index, next)) ==>
      Walk(text, index, next, line, fuel) == Walk(text, next, Find(text, "\n", next + 2), Slice(text, index, next), fuel - 1)
  {
  }

  /** Where the walk's `k`-th line starts and where its newline search ended. */
  function Advance(text: string, index: int, next: int, k: nat): (int, int)
    decreases k
  {
    if k == 0 then (index, next) else Advance(text, next, Find(text, "\n", next + 2), k - 1)
  }

  /** The `k`-th line the walk looks at. */
  function LineAt(text: string, index: int, next: int, k: nat): string
  {
    var p := Advance(text, index, next, k);
    Slice(text, p.0, p.1)
  }

  /** Skipping the first line leaves the rest of the walk's lines in order. */
  lemma LineAtNext(text: string, index: int, next: int, k: nat)
    ensures LineAt(text, next, Find(text, "\n", next + 2), k) == LineAt(text, index, next, k + 1)
    ensures Advance(text, next, Find(text, "\n", next + 2), k) == Advance(text, index, next, k + 1)
  {
  }

  /** None of the first `k` lines of the walk mentions AM or PM. */
  predicate NoTimeBefore(text: string, index: int, next: int, k: nat)
    decreases k
  {
    k == 0 || (!HasTime(Slice(text, index, next)) && NoTimeBefore(text, next, Find(text, "\n", next + 2), k - 1))
  }

  /** `NoTimeBefore` says of each of the first `k` lines that it has no time. */
  lemma {:induction false} NoTimeBeforeAt(text: string, index: int, next: int, k: nat, j: nat)
    requires NoTimeBefore(text, index, next, k) && j < k
    ensures !HasTime(LineAt(text, index, next, j))
    decreases j
  {
    if j == 0 {
      assert LineAt(text, index, next, 0) == Slice(text, index, next);
    } else {
      NoTimeBeforeAt(text, next, Find(text, "\n", next + 2), k - 1, j - 1);
      LineAtNext(text, index, next, j - 1);
    }
  }

  /**
    The walk stops at the first line that mentions AM or PM: if lines
    0 .. k-1 have no time and line `k` (within the fuel) has one, the walk
    answers line `k` and where it starts.
  */
  lemma {:induction false} WalkStopsAtFirstTimeLine(text: string, index: int, next: int, line: string, fuel: nat, k: nat)
    requires k < fuel
    requires NoTimeBefore(text, index, next, k)
    requires HasTime(LineAt(text, index, next, k))
    ensures Walk(text, index, next, line, fuel) ==
      Outcome(Advance(text, index, next, k).0, LineAt(text, index, next, k), false)
    decreases k
  {
    var l := Slice(text, index, next);
    WalkStep(text, index, next, line, fuel);
    if k == 0 {
      assert LineAt(text, index, next, 0) == l;
    } else {
      var n2 := Find(text, "\n", next + 2);
      LineAtNext(text, index, next, k - 1);
      WalkStopsAtFirstTimeLine(text, next, n2, l, fuel - 1, k - 1);
    }
  }

  /** When none of the first `fuel` lines has a time, the walk runs out of steps. */
  lemma {:induction false} WalkExhausted(text: string, index: int, next: int, line: string, fuel: nat)
    requires NoTimeBefore(text, index, next, fuel)
    ensures Walk(text, index, next, line, fuel).exhausted
    decreases fuel
  {
    if fuel > 0 {
      WalkStep(text, index, next, line, fuel);
      WalkExhausted(text, next, Find(text, "\n", next + 2), Slice(text, index, next), fuel - 1);
    }
  }

  /**
    `find_clause_index(text, clause, start)`. The source's `while` loop need
    not end (once no newline follows, the walk restarts near the beginning of
    the text), so the walk here takes at most `fuel` steps and reports
    `exhausted` when it stops for that reason. `lineEnd` is the newline
    search result the returned line was cut at.
  */
  method FindClauseIndex(text: string, clause: string, start: int, fuel: nat)
    returns (index: int, line: string, exhausted: bool, ghost lineEnd: int)
    ensures Find(text, clause, start) == -1 ==> index == -1 && line == "" && !exhausted
    ensures var m := Find(text, clause, start);
      m != -1 ==> Outcome(index, line, exhausted) == Walk(text, m, Find(text, "\n", m), "", fuel)
    ensures Find(text, clause, start) != -1 && !exhausted ==>
      0 <= index < |text| && HasTime(line) && IsLineEnd(text, lineEnd) && line == Slice(text, index, lineEnd)
    ensures var m := Find(text, clause, start);
      m != -1 && 0 < fuel && HasTime(Slice(text, m, Find(text, "\n", m))) ==>
        !exhausted && index == m && start <= index && line == Slice(text, m, Find(text, "\n", m))
  {
    index := Find(text, clause, start);
    line := "";
    exhausted := false;
    lineEnd := -1;
    if index != -1 {
      var next := Find(text, "\n", index);
      FindNewline(text, index);
      ghost var m := index;
      index, line, exhausted, lineEnd := WalkFrom(text, index, next, fuel);
      if 0 < fuel && HasTime(Slice(text, m, next)) {
        WalkStep(text, m, next, "", fuel);
      }
    }
  }

  /**
    The `while not_found` loop of `find_clause_index`, started at the line
    `text[index0:next0]` and run for at most `fuel` steps.
  */
  method WalkFrom(text: string, index0: int, next0: int, fuel: nat)
    returns (index: int, line: string, exhausted: bool, ghost lineEnd: int)
    requires -1 <= index0 <= |text| && IsLineEnd(text, next0)
    ensures Outcome(index, line, exhausted) == Walk(text, index0, next0, "", fuel)
    ensures !exhausted ==>
      0 <= index < |text| && HasTime(line) && IsLineEnd(text, lineEnd) && line == Slice(text, index, lineEnd)
  {
    index, line, lineEnd := index0, "", -1;
    var next := next0;
    var notFound := true;
    var steps: nat := 0;
    while notFound && steps < fuel
      invariant steps <= fuel
      invariant -1 <= index <= |text|
      invariant IsLineEnd(text, next)
      invariant notFound ==> Walk(text, index0, next0, "", fuel) == Walk(text, index, next, line, fuel - steps)
      invariant !notFound ==> Walk(text, index0, next0, "", fuel) == Outcome(index, line, false)
      invariant !notFound ==> lineEnd == next && line == Slice(text, index, next) && HasTime(line) && 0 <= index
    {
      WalkStep(text, index, next, line, fuel - steps);
      line := Slice(text, index, next);
      if HasTime(line) {
        notFound := false;
        lineEnd := next;
        assert line != [];
        if index == -1 {
          SliceFromLastIsEmpty(text, next);
        }
        assert index < |text|;
      } else {
        index := next;
        next := Find(text, "\n", index + 2);
        FindNewline(text, index + 2);
      }
      steps := steps + 1;
    }
    exhausted := notFound;
  }
}
