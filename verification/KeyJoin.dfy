/** The composite-key string compaction groups by: every key cell followed by the unit separator 0x1f, unescaped. */
module KeyJoin {
  const US: char := 31 as char

  /** `compact`'s key loop. */
  function JoinKey(cells: seq<string>): string
    decreases |cells|
  {
    if cells == [] then [] else JoinKey(cells[..|cells| - 1]) + cells[|cells| - 1] + [US]
  }

  method BuildKey(cells: seq<string>) returns (key: string)
    ensures key == JoinKey(cells)
  {
    key := [];
    for i := 0 to |cells|
      invariant key == JoinKey(cells[..i])
    {
      assert cells[..i + 1][..i] == cells[..i];
      key := key + cells[i];
      key := key + [US];
    }
    assert cells[..|cells|] == cells;
  }

  /** No other tuple of the same arity has this tuple's key. */
  ghost predicate Identifies(cells: seq<string>) {
    forall other: seq<string> :: |other| == |cells| && JoinKey(other) == JoinKey(cells) ==> other == cells
  }

  predicate Clean(cells: seq<string>) {
    forall i :: 0 <= i < |cells| ==> US !in cells[i]
  }

  function Separators(s: string): nat {
    if s == [] then 0 else Separators(s[..|s| - 1]) + if s[|s| - 1] == US then 1 else 0
  }

  lemma {:induction false} SeparatorsConcat(a: string, b: string)
    ensures Separators(a + b) == Separators(a) + Separators(b)
    decreases |b|
  {
    if b == [] {
      assert a + b == a;
    } else {
      SeparatorsConcat(a, b[..|b| - 1]);
      assert (a + b)[..|a + b| - 1] == a + b[..|b| - 1];
    }
  }

  lemma {:induction false} SeparatorsZero(s: string)
    ensures Separators(s) == 0 <==> US !in s
  {
    if s != [] {
      SeparatorsZero(s[..|s| - 1]);
      assert s == s[..|s| - 1] + [s[|s| - 1]];
    }
  }

  /** A key has one separator per cell, and more exactly when some cell holds one. */
  lemma {:induction false} CountSeparators(cells: seq<string>)
    ensures Separators(JoinKey(cells)) >= |cells|
    ensures Separators(JoinKey(cells)) == |cells| <==> Clean(cells)
    decreases |cells|
  {
    if cells != [] {
      var front, last := cells[..|cells| - 1], cells[|cells| - 1];
      CountSeparators(front);
      SeparatorsConcat(JoinKey(front) + last, [US]);
      SeparatorsConcat(JoinKey(front), last);
      assert [US][..0] == [] && Separators([US]) == 1;
      SeparatorsZero(last);
      assert forall i :: 0 <= i < |front| ==> cells[i] == front[i];
    }
  }

  /** The last cell of a clean tuple is what stands between the last two separators. */
  lemma LastCell(a: string, x: string, b: string, y: string)
    requires a + x + [US] == b + y + [US] && US !in x && US !in y
    requires (a == [] || a[|a| - 1] == US) && (b == [] || b[|b| - 1] == US)
    ensures a == b && x == y
  {
    var s, u := a + x, b + y;
    assert s == (a + x + [US])[..|s|] && u == (b + y + [US])[..|u|];
    assert forall j :: |a| <= j < |s| ==> s[j] == x[j - |a|];
    assert forall j :: |b| <= j < |u| ==> u[j] == y[j - |b|];
    assert b != [] ==> u[|b| - 1] == US;
    assert a != [] ==> s[|a| - 1] == US;
    assert a == s[..|a|] && b == u[..|b|] && x == s[|a|..] && y == u[|b|..];
  }

  lemma {:induction false} CleanJoinInjective(a: seq<string>, b: seq<string>)
    requires Clean(a) && Clean(b) && |a| == |b| && JoinKey(a) == JoinKey(b)
    ensures a == b
    decreases |a|
  {
    if a != [] {
      var n := |a| - 1;
      LastCell(JoinKey(a[..n]), a[n], JoinKey(b[..n]), b[n]);
      CleanJoinInjective(a[..n], b[..n]);
      assert a == a[..n] + [a[n]] && b == b[..n] + [b[n]];
    }
  }

  lemma {:induction false} JoinConcat(a: seq<string>, b: seq<string>)
    ensures JoinKey(a + b) == JoinKey(a) + JoinKey(b)
    decreases |b|
  {
    if b == [] {
      assert a + b == a;
    } else {
      JoinConcat(a, b[..|b| - 1]);
      assert (a + b)[..|a + b| - 1] == a + b[..|b| - 1];
    }
  }

  lemma JoinPair(x: string, y: string)
    ensures JoinKey([x, y]) == x + [US] + y + [US]
  {
    assert [x, y][..1] == [x] && [x][..0] == [];
    assert JoinKey([x]) == x + [US];
  }

  /** The separator inside one of two neighbouring cells can be taken for the one between them. */
  lemma ShiftSeparator(cells: seq<string>, i: nat, p: nat) returns (other: seq<string>)
    requires i + 1 < |cells|
    requires (p < |cells[i]| && cells[i][p] == US)
          || (|cells[i]| < p <= |cells[i]| + |cells[i + 1]| && cells[i + 1][p - |cells[i]| - 1] == US)
    ensures |other| == |cells| && JoinKey(other) == JoinKey(cells) && other != cells
  {
    var x, y := cells[i], cells[i + 1];
    var s := x + [US] + y;
    var x', y' := s[..p], s[p + 1..];
    assert s[p] == US && s == x' + [US] + y' && |x'| == p != |x|;
    var pre, post := cells[..i], cells[i + 2..];
    other := pre + [x', y'] + post;
    assert cells == pre + [x, y] + post;
    JoinPair(x, y);
    JoinPair(x', y');
    JoinConcat(pre + [x, y], post);
    JoinConcat(pre, [x, y]);
    JoinConcat(pre + [x', y'], post);
    JoinConcat(pre, [x', y']);
    assert x' + [US] + y' + [US] == x + [US] + y + [US];
    assert other[i] == x';
  }

  lemma OneCell(cells: seq<string>)
    requires |cells| == 1
    ensures |JoinKey(cells)| > 0 && cells == [JoinKey(cells)[..|JoinKey(cells)| - 1]]
  {
    assert cells[..0] == [];
    assert JoinKey(cells) == cells[0] + [US];
  }

  /**
   A composite key is identified by its string if and only if none of its cells holds the separator; a single-column
   key always is.
   */
  lemma JoinIdentifies(cells: seq<string>)
    ensures Identifies(cells) <==> |cells| <= 1 || Clean(cells)
  {
    hide JoinKey, Separators;
    if |cells| <= 1 {
      forall other: seq<string> | |other| == |cells| && JoinKey(other) == JoinKey(cells) ensures other == cells {
        if |cells| == 1 {
          OneCell(cells);
          OneCell(other);
        }
      }
    } else if Clean(cells) {
      CountSeparators(cells);
      forall other: seq<string> | |other| == |cells| && JoinKey(other) == JoinKey(cells) ensures other == cells {
        CountSeparators(other);
        CleanJoinInjective(other, cells);
      }
    } else {
      var i :| 0 <= i < |cells| && US in cells[i];
      var p :| 0 <= p < |cells[i]| && cells[i][p] == US;
      var other;
      if i + 1 < |cells| {
        other := ShiftSeparator(cells, i, p);
      } else {
        other := ShiftSeparator(cells, i - 1, |cells[i - 1]| + 1 + p);
      }
      assert !Identifies(cells);
    }
  }
}
