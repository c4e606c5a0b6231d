/** `deleteExtraSpace` (plugins/inputs/smnet/smnet.go): tabs become spaces,
    then every run of two or more whitespace characters is cut back to its
    first character, one leftmost run at a time, until none is left. */
module Space {
  import opened Wrappers

  /** The class `\s` of Go's regular expressions: tab, newline, form feed,
      carriage return and space. */
  predicate IsSpace(c: char)
  {
    c == '\t' || c == '\n' || c == '\U{000C}' || c == '\r' || c == ' '
  }

  /** strings.Replace(s, "\t", " ", -1) */
  function ReplaceTabs(s: string): (r: string)
    ensures |r| == |s|
    ensures '\t' !in r
    ensures forall i :: 0 <= i < |s| ==> (IsSpace(r[i]) <==> IsSpace(s[i]))
    ensures forall i :: 0 <= i < |s| && !IsSpace(s[i]) ==> r[i] == s[i]
    ensures forall i :: 0 <= i < |s| && s[i] == '\t' ==> r[i] == ' '
    ensures forall i :: 0 <= i < |s| && s[i] != '\t' ==> r[i] == s[i]
  {
    seq(|s|, i requires 0 <= i < |s| => if s[i] == '\t' then ' ' else s[i])
  }

  /** No two whitespace characters stand next to each other. */
  predicate NoAdjacentSpace(s: string)
  {
    forall i :: 0 <= i < |s| - 1 ==> !(IsSpace(s[i]) && IsSpace(s[i + 1]))
  }

  /** The non-whitespace characters of `s`, in order. */
  function NonSpace(s: string): string
    decreases |s|
  {
    if |s| == 0 then "" else (if IsSpace(s[0]) then "" else [s[0]]) + NonSpace(s[1..])
  }

  /** The intended result of deleteExtraSpace on a tab-free text: each
      maximal whitespace run replaced by its first character. */
  function Collapse(s: string): (r: string)
    ensures |r| <= |s|
    ensures |s| > 0 ==> |r| > 0 && r[0] == s[0]
    decreases |s|
  {
    if |s| <= 1 then s
    else if IsSpace(s[0]) && IsSpace(s[1]) then Collapse([s[0]] + s[2..])
    else [s[0]] + Collapse(s[1..])
  }

  /** Collapse leaves no two whitespace characters adjacent. */
  lemma {:induction false} CollapseNoAdjacent(s: string)
    ensures NoAdjacentSpace(Collapse(s))
    decreases |s|
  {
    if |s| > 1 {
      if IsSpace(s[0]) && IsSpace(s[1]) {
        CollapseNoAdjacent([s[0]] + s[2..]);
      } else {
        CollapseNoAdjacent(s[1..]);
        var c := Collapse(s[1..]);
        assert Collapse(s) == [s[0]] + c;
        assert c[0] == s[1];
      }
    }
  }

  /** Collapse keeps the non-whitespace characters, in order. */
  lemma {:induction false} CollapseKeepsNonSpace(s: string)
    ensures NonSpace(Collapse(s)) == NonSpace(s)
    decreases |s|
  {
    if |s| > 1 {
      if IsSpace(s[0]) && IsSpace(s[1]) {
        var t := [s[0]] + s[2..];
        CollapseKeepsNonSpace(t);
        assert t[1..] == s[2..];
        assert NonSpace(s[1..]) == NonSpace(s[2..]);
      } else {
        CollapseKeepsNonSpace(s[1..]);
        var r := [s[0]] + Collapse(s[1..]);
        assert r[1..] == Collapse(s[1..]);
      }
    }
  }

  /** Collapse invents no character: in particular a text without tabs
      collapses to one without tabs. */
  lemma {:induction false} CollapseChars(s: string, c: char)
    requires c in Collapse(s)
    ensures c in s
    decreases |s|
  {
    if |s| > 1 {
      if IsSpace(s[0]) && IsSpace(s[1]) {
        var t := [s[0]] + s[2..];
        CollapseChars(t, c);
        assert forall x :: x in t ==> x in s;
      } else {
        var r := [s[0]] + Collapse(s[1..]);
        if c != s[0] {
          assert c in r[1..];
          assert r[1..] == Collapse(s[1..]);
          CollapseChars(s[1..], c);
        }
      }
    }
  }

  /** Collapse leaves a text with no adjacent whitespace as it is. */
  lemma {:induction false} CollapseFixed(s: string)
    requires NoAdjacentSpace(s)
    ensures Collapse(s) == s
    decreases |s|
  {
    if |s| > 1 {
      assert NoAdjacentSpace(s[1..]);
      CollapseFixed(s[1..]);
      assert s == [s[0]] + s[1..];
    }
  }

  /** Collapse is idempotent. */
  lemma CollapseIdempotent(s: string)
    ensures Collapse(Collapse(s)) == Collapse(s)
  {
    CollapseNoAdjacent(s);
    CollapseFixed(Collapse(s));
  }

  /** A non-empty run of whitespace collapses to its first character. */
  lemma {:induction false} CollapseRun(w: string)
    requires |w| > 0
    requires forall i :: 0 <= i < |w| ==> IsSpace(w[i])
    ensures Collapse(w) == [w[0]]
    decreases |w|
  {
    if |w| > 1 {
      var t := [w[0]] + w[2..];
      CollapseRun(t);
    }
  }

  /** Collapse works run by run: a text cut where no whitespace run is split
      collapses piecewise. */
  lemma {:induction false} CollapseConcat(a: string, b: string)
    requires |a| > 0 && |b| > 0 ==> !(IsSpace(a[|a| - 1]) && IsSpace(b[0]))
    ensures Collapse(a + b) == Collapse(a) + Collapse(b)
    decreases |a|, 1
  {
    if |a| == 0 {
      assert a + b == b;
    } else if |b| == 0 {
      assert a + b == a;
    } else if |a| >= 2 && IsSpace(a[0]) && IsSpace(a[1]) {
      CollapseConcatPair(a, b);
    } else {
      CollapseConcatKeep(a, b);
    }
  }

  /** CollapseConcat when `a` opens with two whitespace characters. */
  lemma {:induction false} CollapseConcatPair(a: string, b: string)
    requires |a| >= 2 && |b| > 0 && IsSpace(a[0]) && IsSpace(a[1])
    requires !(IsSpace(a[|a| - 1]) && IsSpace(b[0]))
    ensures Collapse(a + b) == Collapse(a) + Collapse(b)
    decreases |a|, 0
  {
    var ab := a + b;
    var t := [a[0]] + a[2..];
    assert t[|t| - 1] == a[|a| - 1] || (|a| == 2 && IsSpace(t[|t| - 1]));
    CollapseConcat(t, b);
    assert [ab[0]] + ab[2..] == t + b;
  }

  /** A character that does not start a whitespace pair is kept in front. */
  lemma CollapseCons(c: char, t: string)
    requires |t| == 0 || !(IsSpace(c) && IsSpace(t[0]))
    ensures Collapse([c] + t) == [c] + Collapse(t)
  {
    var ct := [c] + t;
    assert ct[0] == c && ct[1..] == t;
    if |t| > 0 {
      assert ct[1] == t[0];
    }
  }

  /** CollapseConcat when the first character of `a` is kept as it is. */
  lemma {:induction false} CollapseConcatKeep(a: string, b: string)
    requires |a| >= 1 && |b| > 0 && !(|a| >= 2 && IsSpace(a[0]) && IsSpace(a[1]))
    requires !(IsSpace(a[|a| - 1]) && IsSpace(b[0]))
    ensures Collapse(a + b) == Collapse(a) + Collapse(b)
    decreases |a|, 0
  {
    var rest := a[1..];
    assert a == [a[0]] + rest;
    assert a + b == [a[0]] + (rest + b);
    if |rest| == 0 {
      assert rest + b == b;
      CollapseCons(a[0], b);
    } else {
      assert (rest + b)[0] == rest[0] == a[1];
      CollapseCons(a[0], rest + b);
      CollapseCons(a[0], rest);
      CollapseConcat(rest, b);
    }
  }

  /** Replacing tabs touches only whitespace. */
  lemma {:induction false} ReplaceTabsKeepsNonSpace(s: string)
    ensures NonSpace(ReplaceTabs(s)) == NonSpace(s)
    decreases |s|
  {
    if |s| > 0 {
      ReplaceTabsKeepsNonSpace(s[1..]);
      assert ReplaceTabs(s)[1..] == ReplaceTabs(s[1..]);
    }
  }

  /** A match of `\s{2,}` as regexp.FindStringIndex reports it. */
  datatype Span = Span(start: nat, end: nat)

  /** `m` is the leftmost, longest run of at least two whitespace characters
      in `s`: what Go's leftmost-first, greedy `\s{2,}` finds. */
  predicate IsFirstRun(s: string, m: Span)
  {
    && m.start + 2 <= m.end <= |s|
    && (forall k :: m.start <= k < m.end ==> IsSpace(s[k]))
    && (m.end == |s| || !IsSpace(s[m.end]))
    && NoAdjacentSpace(s[..m.start + 1])
  }

  /** The end of the whitespace run that starts at `i`. */
  function RunEnd(s: string, i: nat): (j: nat)
    requires i <= |s|
    ensures i <= j <= |s|
    ensures forall k :: i <= k < j ==> IsSpace(s[k])
    ensures j == |s| || !IsSpace(s[j])
    decreases |s| - i
  {
    if i < |s| && IsSpace(s[i]) then RunEnd(s, i + 1) else i
  }

  /** The first position at or after `i` where two whitespace characters meet. */
  function FirstPair(s: string, i: nat): (k: Option<nat>)
    requires i <= |s|
    ensures k.None? ==> forall j :: i <= j < |s| - 1 ==> !(IsSpace(s[j]) && IsSpace(s[j + 1]))
    ensures k.Some? ==> i <= k.value < |s| - 1 && IsSpace(s[k.value]) && IsSpace(s[k.value + 1])
    ensures k.Some? ==> forall j :: i <= j < k.value ==> !(IsSpace(s[j]) && IsSpace(s[j + 1]))
    decreases |s| - i
  {
    if i + 1 >= |s| then None
    else if IsSpace(s[i]) && IsSpace(s[i + 1]) then Some(i)
    else FirstPair(s, i + 1)
  }

  /** regexp.FindStringIndex(s) for the pattern `\s{2,}`: nothing exactly
      when no two whitespace characters are adjacent, else the first run. */
  function FindRun(s: string): (m: Option<Span>)
    ensures m.None? <==> NoAdjacentSpace(s)
    ensures m.Some? ==> IsFirstRun(s, m.value)
  {
    match FirstPair(s, 0)
    case None => None
    case Some(k) =>
      var m := Span(k, RunEnd(s, k));
      assert NoAdjacentSpace(s[..k + 1]);
      Some(m)
  }

  /** A whitespace run followed by a text that does not open with
      whitespace collapses to its first character. */
  lemma CollapseRunThen(w: string, b: string)
    requires |w| > 0 && forall i :: 0 <= i < |w| ==> IsSpace(w[i])
    requires |b| > 0 ==> !IsSpace(b[0])
    ensures Collapse(w + b) == [w[0]] + Collapse(b)
  {
    CollapseConcat(w, b);
    CollapseRun(w);
  }

  /** A whitespace run between two non-whitespace neighbours collapses to
      its first character. */
  lemma CollapseCut(a: string, w: string, b: string)
    requires |w| >= 2 && forall i :: 0 <= i < |w| ==> IsSpace(w[i])
    requires |a| > 0 ==> !IsSpace(a[|a| - 1])
    requires |b| > 0 ==> !IsSpace(b[0])
    ensures Collapse(a + ([w[0]] + b)) == Collapse(a + (w + b))
  {
    var c := w[0];
    CollapseRunThen(w, b);
    CollapseRunThen([c], b);
    assert (w + b)[0] == c && ([c] + b)[0] == c;
    CollapseConcat(a, w + b);
    CollapseConcat(a, [c] + b);
  }

  /** Cutting the first run back to its first character does not change
      what the text collapses to. */
  lemma CutPreservesCollapse(s: string, m: Span)
    requires IsFirstRun(s, m)
    ensures Collapse(s[..m.start + 1] + s[m.end..]) == Collapse(s)
  {
    var a, w, b := s[..m.start], s[m.start..m.end], s[m.end..];
    assert s == a + (w + b);
    assert s[..m.start + 1] + s[m.end..] == a + ([w[0]] + b);
    assert m.start > 0 ==> !IsSpace(s[m.start - 1]) by {
      if m.start > 0 {
        assert s[..m.start + 1][m.start - 1] == s[m.start - 1];
      }
    }
    CollapseCut(a, w, b);
  }

  /** deleteExtraSpace: the loop splices out the rest of the leftmost run on
      every pass; each pass makes the text strictly shorter, and the result
      is the collapsed, tab-free text. */
  method DeleteExtraSpace(s: string) returns (r: string)
    ensures r == Collapse(ReplaceTabs(s))
    ensures '\t' !in r
    ensures NoAdjacentSpace(r)
    ensures NonSpace(r) == NonSpace(s)
  {
    var s2 := ReplaceTabs(s);
    var found := FindRun(s2);
    while found.Some?
      invariant found == FindRun(s2)
      invariant Collapse(s2) == Collapse(ReplaceTabs(s))
      decreases |s2|
    {
      var m := found.value;
      CutPreservesCollapse(s2, m);
      s2 := s2[..m.start + 1] + s2[m.end..];
      found := FindRun(s2);
    }
    CollapseFixed(s2);
    r := s2;
    if '\t' in r {
      CollapseChars(ReplaceTabs(s), '\t');
    }
    CollapseKeepsNonSpace(ReplaceTabs(s));
    ReplaceTabsKeepsNonSpace(s);
  }
}
