/**
  The timestamp cut out of a status line: the text between "(effective" and
  the closing parenthesis, stripped, with a bare hour such as "3 PM" padded
  to "3:00 PM" so that it reads as hours and minutes.
*/
module Effective {
  import opened PyStr

  const EffectiveTag: string := "(effective"

  /** `c` does not occur in `s`. */
  predicate NoChar(s: string, c: char)
  {
    forall k :: 0 <= k < |s| ==> s[k] != c
  }

  /**
    The cut as the scraper writes it: the closing parenthesis is searched for
    from the start of the snippet, not from "(effective". When the snippet has
    no "(effective", it is kept whole.
  */
  function CutEffectiveAsWritten(snippet: string): (r: string)
    ensures !Contains(snippet, EffectiveTag) ==> r == snippet
    ensures |r| <= |snippet|
  {
    var idx := Find(snippet, EffectiveTag, 0);
    if idx != -1 then Strip(Slice(snippet, idx + |EffectiveTag|, Find(snippet, ")", 0)))
    else snippet
  }

  /** The cut with the closing parenthesis searched for from "(effective" on. */
  function CutEffective(snippet: string): (r: string)
    ensures !Contains(snippet, EffectiveTag) ==> r == snippet
    ensures |r| <= |snippet|
  {
    var idx := Find(snippet, EffectiveTag, 0);
    if idx != -1 then Strip(Slice(snippet, idx + |EffectiveTag|, Find(snippet, ")", idx)))
    else snippet
  }

  /**
    The padding step: when "PM" occurs, every " PM" becomes ":00 PM"; then,
    when "AM" occurs, every " AM" becomes ":00 AM".
  */
  function PadTime(snippet: string): (r: string)
    ensures |snippet| <= |r|
    ensures !Contains(snippet, " PM") && !Contains(snippet, " AM") ==> r == snippet
  {
    var s := if Contains(snippet, "PM") then Replace(snippet, " PM", ":00 PM") else snippet;
    assert !Contains(snippet, " PM") ==> s == snippet by {
      if !Contains(snippet, " PM") {
        ReplaceAbsent(snippet, " PM", ":00 PM");
      }
    }
    if Contains(s, "AM") then
      assert !Contains(s, " AM") ==> Replace(s, " AM", ":00 AM") == s by {
        if !Contains(s, " AM") {
          ReplaceAbsent(s, " AM", ":00 AM");
        }
      }
      Replace(s, " AM", ":00 AM")
    else s
  }

  /**
    The timestamp text lines 106-116 produce as written: the cut that searches
    for ")" from the start of the snippet, then the padding.
  */
  function EffectiveTimeAsWritten(snippet: string): (r: string)
    ensures !Contains(snippet, EffectiveTag) ==> r == PadTime(snippet)
  {
    PadTime(CutEffectiveAsWritten(snippet))
  }

  /** The same step with the corrected cut; `EffectiveAfternoon` and `EffectiveMorning` state what it gives. */
  function EffectiveTime(snippet: string): (r: string)
    ensures !Contains(snippet, EffectiveTag) ==> r == PadTime(snippet)
  {
    PadTime(CutEffective(snippet))
  }

  /**
    Python `s.split(" ", 1)`: the text before the first space and the text
    after it, or the whole text alone when it has no space.
  */
  function SplitOnce(s: string): (r: seq<string>)
    ensures |r| == 1 || |r| == 2
    ensures |r| == 1 <==> !Contains(s, " ")
    ensures |r| == 1 ==> r[0] == s
    ensures |r| == 2 ==> r[0] + " " + r[1] == s && NoChar(r[0], ' ')
  {
    match IndexOf(s, " ")
    case None => [s]
    case Some(i) =>
      assert s[..i] + " " + s[i + 1..] == s by {
        assert s[i..i + 1] == " ";
      }
      assert NoChar(s[..i], ' ') by {
        forall k | 0 <= k < i ensures s[k] != ' ' {
          assert !IsAt(s, " ", k);
          assert s[k..k + 1] == [s[k]];
        }
      }
      [s[..i], s[i + 1..]]
  }

  /** A character `in` no part of `s` occurs at no position of it. */
  lemma NoCharOf(s: string, c: char)
    requires !Contains(s, [c])
    ensures NoChar(s, c)
  {
    forall k | 0 <= k < |s| ensures s[k] != c {
      assert !IsAt(s, [c], k);
      assert s[k..k + 1] == [s[k]];
    }
  }

  /** A character occurring at no position of `s` is not `in` it. */
  lemma NotContainsChar(s: string, c: char)
    requires NoChar(s, c)
    ensures !Contains(s, [c])
  {
    forall p | 0 <= p ensures !IsAt(s, [c], p) {
      if p + 1 <= |s| {
        assert s[p..p + 1][0] == s[p];
      }
    }
    ContainsIff(s, [c]);
  }

  /** "(effective" starts at `|pre|` when `pre` has no opening parenthesis. */
  lemma FindTag(pre: string, mid: string, post: string)
    requires NoChar(pre, '(')
    ensures Find(pre + EffectiveTag + mid + ")" + post, EffectiveTag, 0) == |pre|
  {
    var s := pre + EffectiveTag + mid + ")" + post;
    assert s[|pre|..|pre| + |EffectiveTag|] == EffectiveTag;
    assert IsAt(s, EffectiveTag, |pre|);
    var r := Find(s, EffectiveTag, 0);
    assert s[r] == s[r..r + |EffectiveTag|][0];
  }

  /** The first ")" at or after `from` in `s` is at `q`. */
  lemma FindParen(s: string, from: nat, q: nat)
    requires from <= q < |s| && s[q] == ')'
    requires forall k :: from <= k < q ==> s[k] != ')'
    ensures Find(s, ")", from) == q
  {
    assert s[q..q + 1] == ")";
    assert IsAt(s, ")", q);
    var r := Find(s, ")", from);
    assert s[r] == s[r..r + 1][0];
  }

  /**
    The corrected cut answers the stripped text between the first "(effective"
    and the first ")" after it, whatever comes before the tag.
  */
  lemma CutBetween(s: string, pre: string, mid: string, post: string)
    requires s == pre + EffectiveTag + mid + ")" + post
    requires Find(s, EffectiveTag, 0) == |pre| && !Contains(mid, ")")
    ensures CutEffective(s) == Strip(mid)
  {
    var a := |pre| + |EffectiveTag|;
    assert Find(s, ")", |pre|) == a + |mid| by {
      NoCharOf(mid, ')');
      ParenAfterTag(pre, mid, post, |pre|);
    }
    assert Slice(s, a, a + |mid|) == mid by {
      MiddleSlice(pre, mid, post);
    }
    CutLocated(s, |pre|, a + |mid|, mid);
  }

  /** The corrected cut, once the tag and the closing parenthesis after it are located. */
  lemma CutLocated(s: string, idx: nat, q: int, mid: string)
    requires Find(s, EffectiveTag, 0) == idx && Find(s, ")", idx) == q
    requires Slice(s, idx + |EffectiveTag|, q) == mid
    ensures CutEffective(s) == Strip(mid)
  {
    assert CutEffective(s) == Strip(Slice(s, idx + |EffectiveTag|, q));
  }

  /** The cut as written, once the tag and the first closing parenthesis are located. */
  lemma CutAsWrittenLocated(s: string, idx: nat, q: int, mid: string)
    requires Find(s, EffectiveTag, 0) == idx && Find(s, ")", 0) == q
    requires Slice(s, idx + |EffectiveTag|, q) == mid
    ensures CutEffectiveAsWritten(s) == Strip(mid)
  {
    assert CutEffectiveAsWritten(s) == Strip(Slice(s, idx + |EffectiveTag|, q));
  }

  /** In `pre + "(effective" + mid + ")" + post`, the text between the tag and the ")" is `mid`. */
  lemma MiddleSlice(pre: string, mid: string, post: string)
    ensures var a := |pre| + |EffectiveTag|;
      Slice(pre + EffectiveTag + mid + ")" + post, a, a + |mid|) == mid
  {
    var s := pre + EffectiveTag + mid + ")" + post;
    var a := |pre| + |EffectiveTag|;
    assert s[a..a + |mid|] == mid;
  }

  /** With no ")" in `mid`, the first ")" at or after `from` (at most the tag's position) closes `mid`. */
  lemma ParenAfterTag(pre: string, mid: string, post: string, from: nat)
    requires from <= |pre| && NoChar(pre[from..], ')') && NoChar(mid, ')')
    ensures Find(pre + EffectiveTag + mid + ")" + post, ")", from) == |pre| + |EffectiveTag| + |mid|
  {
    var s := pre + EffectiveTag + mid + ")" + post;
    var a := |pre| + |EffectiveTag|;
    forall k | from <= k < a + |mid| ensures s[k] != ')' {
      if k < |pre| {
        assert s[k] == pre[from..][k - from];
      } else if k < a {
        assert s[k] == EffectiveTag[k - |pre|];
      } else {
        assert s[k] == mid[k - a];
      }
    }
    FindParen(s, from, a + |mid|);
  }

  /**
    The cut as written gives the same answer when no ")" comes before the tag
    either, which is the layout the scraper expects.
  */
  lemma CutBetweenAsWritten(s: string, pre: string, mid: string, post: string)
    requires s == pre + EffectiveTag + mid + ")" + post
    requires Find(s, EffectiveTag, 0) == |pre| && !Contains(pre, ")") && !Contains(mid, ")")
    ensures CutEffectiveAsWritten(s) == Strip(mid)
  {
    var a := |pre| + |EffectiveTag|;
    assert Find(s, ")", 0) == a + |mid| by {
      NoCharOf(mid, ')');
      NoCharOf(pre, ')');
      assert pre[0..] == pre;
      ParenAfterTag(pre, mid, post, 0);
    }
    assert Slice(s, a, a + |mid|) == mid by {
      MiddleSlice(pre, mid, post);
    }
    CutAsWrittenLocated(s, |pre|, a + |mid|, mid);
  }

  /**
    The cut as written loses the timestamp whenever a ")" comes before
    "(effective": the slice then ends before it starts and is empty.
  */
  lemma AsWrittenLosesTime(s: string)
    requires Contains(s, EffectiveTag) && Contains(s, ")")
    requires Find(s, ")", 0) < Find(s, EffectiveTag, 0)
    ensures CutEffectiveAsWritten(s) == []
  {
  }

  /** A ")" inside `pre` is found before "(effective". */
  lemma ParenInPrefix(pre: string, mid: string, post: string)
    requires Contains(pre, ")")
    ensures 0 <= Find(pre + EffectiveTag + mid + ")" + post, ")", 0) < |pre|
  {
    var s := pre + EffectiveTag + mid + ")" + post;
    var q := Find(pre, ")", 0);
    assert s[q..q + 1] == pre[q..q + 1];
    assert IsAt(s, ")", q);
  }

  /**
    When a ")" comes before the first "(effective", the cut as written
    is empty while the corrected cut is the stripped text inside the tag.
  */
  lemma CutsDisagree(s: string, pre: string, mid: string, post: string)
    requires s == pre + EffectiveTag + mid + ")" + post
    requires Find(s, EffectiveTag, 0) == |pre| && Contains(pre, ")") && !Contains(mid, ")")
    ensures CutEffectiveAsWritten(s) == []
    ensures CutEffective(s) == Strip(mid)
  {
    CutBetween(s, pre, mid, post);
    assert 0 <= Find(s, ")", 0) < |pre| by {
      ParenInPrefix(pre, mid, post);
    }
    AsWrittenLosesTime(s);
  }

  /**
    A snippet on which the two cuts differ: the walk reached a line holding a
    status note numbered "1)" before "(effective <time>)". The cut as written
    is empty; the corrected cut is the time.
  */
  lemma NumberedNoteBeforeTag(s: string, mid: string)
    requires s == NoteLine + EffectiveTag + mid + ")"
    requires !Contains(mid, ")")
    ensures CutEffectiveAsWritten(s) == []
    ensures CutEffective(s) == Strip(mid)
  {
    var pre := NoteLine;
    NoteLineParts(pre);
    assert s == pre + EffectiveTag + mid + ")" + "";
    FindTag(pre, mid, "");
    CutsDisagree(s, pre, mid, "");
  }

  /** The start of a snippet that begins at a newline followed by a numbered note. */
  const NoteLine: string := "\n1) "

  lemma NoteLineParts(pre: string)
    requires pre == NoteLine
    ensures NoChar(pre, '(') && Contains(pre, ")")
  {
    assert IsAt(pre, ")", 2);
    ContainsIff(pre, ")");
  }

  /**
    On such a snippet the scraper as written has an empty timestamp text, and
    `split(" ", 1)` of it has one part only, so the `[1]` that follows has no
    element to take and the run stops with an IndexError.
  */
  lemma NumberedNoteStopsRun(s: string, mid: string)
    requires s == NoteLine + EffectiveTag + mid + ")"
    requires !Contains(mid, ")")
    ensures EffectiveTimeAsWritten(s) == []
    ensures |SplitOnce(EffectiveTimeAsWritten(s))| == 1
  {
    NumberedNoteBeforeTag(s, mid);
    assert !Contains([], " PM") && !Contains([], " AM");
    assert !Contains([], " ");
  }

  /** " PM" occurs only where "PM" does, so the guard on the first replace never changes its result. */
  lemma SpacedImpliesBare(s: string, x: string)
    requires |x| == 2 && Contains(s, " " + x)
    ensures Contains(s, x)
  {
    var p := Find(s, " " + x, 0);
    assert s[p + 1..p + 3] == s[p..p + 3][1..];
    assert IsAt(s, x, p + 1);
    ContainsIff(s, x);
  }

  /** The guards in the padding step are redundant: it is two unconditional replaces. */
  lemma PadTimeIsReplace(snippet: string)
    ensures PadTime(snippet) == Replace(Replace(snippet, " PM", ":00 PM"), " AM", ":00 AM")
  {
    if !Contains(snippet, "PM") {
      assert " " + "PM" == " PM";
      if Contains(snippet, " PM") {
        SpacedImpliesBare(snippet, "PM");
      }
      ReplaceAbsent(snippet, " PM", ":00 PM");
    }
    var s := Replace(snippet, " PM", ":00 PM");
    if !Contains(s, "AM") {
      assert " " + "AM" == " AM";
      if Contains(s, " AM") {
        SpacedImpliesBare(s, "AM");
      }
      ReplaceAbsent(s, " AM", ":00 AM");
    }
  }

  /** In `x + tail`, where `tail`'s only 'M' is its last letter and `x` has none, `tail` occurs only at the end. */
  lemma NoEarlyMatch(x: string, tail: string, p: nat)
    requires NoChar(x, 'M') && |tail| == 3 && tail[2] == 'M' && tail[1] != 'M' && tail[0] != 'M'
    requires p < |x|
    ensures !IsAt(x + tail, tail, p)
  {
    var s := x + tail;
    if p + 3 <= |s| {
      assert s[p..p + 3][2] == s[p + 2];
      if p + 2 < |x| {
        assert s[p + 2] == x[p + 2];
      } else if p + 2 == |x| {
        assert s[p + 2] == tail[0];
      } else {
        assert s[p + 2] == tail[1];
      }
    }
  }

  /** `pad` (" AM", ":00 AM", ...) holds no `other` ("PM" or "AM") when its only 'M' is its last letter. */
  lemma NoOtherAfter(x: string, pad: string, other: string)
    requires NoChar(x, 'M') && |pad| >= 2 && pad[|pad| - 1] == 'M' && NoChar(pad[..|pad| - 1], 'M')
    requires |other| == 2 && other[1] == 'M' && other[0] != pad[|pad| - 2]
    ensures !Contains(x + pad, other)
  {
    var s := x + pad;
    var n := |pad| - 1;
    forall p | 0 <= p ensures !IsAt(s, other, p) {
      if p + 2 <= |s| {
        assert s[p..p + 2][1] == s[p + 1] && s[p..p + 2][0] == s[p];
        if p + 1 < |x| {
          assert s[p + 1] == x[p + 1];
        } else if p + 1 < |x| + n {
          assert s[p + 1] == pad[..n][p + 1 - |x|];
        } else {
          assert s[p] == pad[n - 1];
        }
      }
    }
    ContainsIff(s, other);
  }

  /** A time ending in " PM" gets ":00" before the "PM" and nothing else changes. */
  lemma PadAfternoon(x: string)
    requires !Contains(x, "M")
    ensures PadTime(x + " PM") == x + ":00 PM"
  {
    NoCharOf(x, 'M');
    forall p | 0 <= p < |x| ensures !IsAt(x + " PM", " PM", p) {
      NoEarlyMatch(x, " PM", p);
    }
    ReplaceAtEnd(x, " PM", ":00 PM");
    assert IsAt(x + " PM", "PM", |x| + 1);
    ContainsIff(x + " PM", "PM");
    NoOtherAfter(x, ":00 PM", "AM");
  }

  /** A time ending in " AM" gets ":00" before the "AM" and nothing else changes. */
  lemma PadMorning(x: string)
    requires !Contains(x, "M")
    ensures PadTime(x + " AM") == x + ":00 AM"
  {
    NoCharOf(x, 'M');
    forall p | 0 <= p < |x| ensures !IsAt(x + " AM", " AM", p) {
      NoEarlyMatch(x, " AM", p);
    }
    NoOtherAfter(x, " AM", "PM");
    ReplaceAtEnd(x, " AM", ":00 AM");
    assert IsAt(x + " AM", "AM", |x| + 1);
    ContainsIff(x + " AM", "AM");
  }

  /**
    The whole extraction, corrected, on a line whose first "(effective" is
    followed by "<date> <hour> PM)": it yields "<date> <hour>:00 PM", whatever
    comes before the tag.
  */
  lemma EffectiveAfternoon(s: string, pre: string, x: string, post: string)
    requires s == pre + EffectiveTag + " " + x + " PM)" + post
    requires Find(s, EffectiveTag, 0) == |pre| && !Contains(x, ")") && !Contains(x, "M")
    requires x != [] && !IsSpace(x[0])
    ensures EffectiveTime(s) == x + ":00 PM"
  {
    CutTime(s, pre, x, " PM", post);
    PadAfternoon(x);
  }

  /** The same for a morning time: "(effective <date> <hour> AM)" yields "<date> <hour>:00 AM". */
  lemma EffectiveMorning(s: string, pre: string, x: string, post: string)
    requires s == pre + EffectiveTag + " " + x + " AM)" + post
    requires Find(s, EffectiveTag, 0) == |pre| && !Contains(x, ")") && !Contains(x, "M")
    requires x != [] && !IsSpace(x[0])
    ensures EffectiveTime(s) == x + ":00 AM"
  {
    CutTime(s, pre, x, " AM", post);
    PadMorning(x);
  }

  /**
    Lines 106-116 as written on a line with no ")" before its first "(effective":
    "(effective <date> <hour> PM)" yields "<date> <hour>:00 PM".
  */
  lemma EffectiveAfternoonAsWritten(s: string, pre: string, x: string, post: string)
    requires s == pre + EffectiveTag + " " + x + " PM)" + post
    requires Find(s, EffectiveTag, 0) == |pre| && !Contains(pre, ")") && !Contains(x, ")") && !Contains(x, "M")
    requires x != [] && !IsSpace(x[0])
    ensures EffectiveTimeAsWritten(s) == x + ":00 PM"
  {
    CutTimeAsWritten(s, pre, x, " PM", post);
    PadAfternoon(x);
  }

  /** The same for a morning time, as written. */
  lemma EffectiveMorningAsWritten(s: string, pre: string, x: string, post: string)
    requires s == pre + EffectiveTag + " " + x + " AM)" + post
    requires Find(s, EffectiveTag, 0) == |pre| && !Contains(pre, ")") && !Contains(x, ")") && !Contains(x, "M")
    requires x != [] && !IsSpace(x[0])
    ensures EffectiveTimeAsWritten(s) == x + ":00 AM"
  {
    CutTimeAsWritten(s, pre, x, " AM", post);
    PadMorning(x);
  }

  /** The first "(effective <x><tail>)" is cut to `x + tail` when the tail is " AM" or " PM". */
  lemma CutTime(s: string, pre: string, x: string, tail: string, post: string)
    requires tail == " AM" || tail == " PM"
    requires s == pre + EffectiveTag + " " + x + tail + ")" + post
    requires Find(s, EffectiveTag, 0) == |pre| && !Contains(x, ")")
    requires x != [] && !IsSpace(x[0])
    ensures CutEffective(s) == x + tail
  {
    var mid := " " + x + tail;
    assert s == pre + EffectiveTag + mid + ")" + post;
    MidHasNoParen(x, tail);
    CutBetween(s, pre, mid, post);
    StripTime(x, tail);
  }

  /** The cut as written gives the same `x + tail` when no ")" comes before the tag either. */
  lemma CutTimeAsWritten(s: string, pre: string, x: string, tail: string, post: string)
    requires tail == " AM" || tail == " PM"
    requires s == pre + EffectiveTag + " " + x + tail + ")" + post
    requires Find(s, EffectiveTag, 0) == |pre| && !Contains(pre, ")") && !Contains(x, ")")
    requires x != [] && !IsSpace(x[0])
    ensures CutEffectiveAsWritten(s) == x + tail
  {
    var mid := " " + x + tail;
    assert s == pre + EffectiveTag + mid + ")" + post;
    MidHasNoParen(x, tail);
    CutBetweenAsWritten(s, pre, mid, post);
    StripTime(x, tail);
  }

  lemma MidHasNoParen(x: string, tail: string)
    requires tail == " AM" || tail == " PM"
    requires !Contains(x, ")")
    ensures !Contains(" " + x + tail, ")")
  {
    var mid := " " + x + tail;
    NoCharOf(x, ')');
    forall k | 0 <= k < |mid| ensures mid[k] != ')' {
      if 1 <= k <= |x| {
        assert mid[k] == x[k - 1];
      }
    }
    NotContainsChar(mid, ')');
  }

  lemma StripTime(x: string, tail: string)
    requires tail == " AM" || tail == " PM"
    requires x != [] && !IsSpace(x[0])
    ensures Strip(" " + x + tail) == x + tail
  {
    assert " " + x + tail == " " + (x + tail) + "";
    StripPadded(" ", x + tail, "");
  }
}
