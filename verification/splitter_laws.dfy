/** When the splitter undoes joining: exactly which name lists survive. */
module SplitterLaws {
  import opened Sequences
  import opened ListSplitter

  const MARK: char := '\U{1}'

  /** The names joined with ':'. */
  function Join(ns: seq<string>): string {
    if ns == [] then []
    else if |ns| == 1 then ns[0]
    else ns[0] + (":" + Join(ns[1..]))
  }

  predicate Unmarked(s: string) { s == [] || (s[0] != MARK && Unmarked(s[1..])) }

  predicate ColonFree(s: string) { s == [] || (s[0] != ':' && ColonFree(s[1..])) }

  /** Colons come in runs of even length. */
  predicate EvenRuns(s: string)
    decreases |s|
  {
    s == [] || if s[0] == ':' then |s| >= 2 && s[1] == ':' && EvenRuns(s[2..]) else EvenRuns(s[1..])
  }

  predicate Starts(s: string, c: char) { s != [] && s[0] == c }

  /** A name the placeholder keeps apart from the separators. */
  predicate Sound(n: string) { n != [] && Unmarked(n) && EvenRuns(n) }

  /** Sound names, none of which starts with a colon. */
  predicate Inside(ns: seq<string>) {
    ns == [] || (Sound(ns[0]) && !Starts(ns[0], ':') && Inside(ns[1..]))
  }

  /** Sound names, of which only the first may start with a colon. */
  predicate Splittable(ns: seq<string>) { ns == [] || (Sound(ns[0]) && Inside(ns[1..])) }

  /** Pairs of colons, taken from the left, as the placeholder. */
  function Collapsed(s: string): string
    decreases |s|
  {
    if s == [] then []
    else if s[0] == ':' && |s| >= 2 && s[1] == ':' then [MARK] + Collapsed(s[2..])
    else [s[0]] + Collapsed(s[1..])
  }

  /** Placeholders as pairs of colons. */
  function Restored(s: string): string {
    if s == [] then []
    else if s[0] == MARK then [':', ':'] + Restored(s[1..])
    else [s[0]] + Restored(s[1..])
  }

  /** The first replacing loop, character by character. */
  lemma {:induction false} CollapsedIs(s: string)
    ensures Replaced(s, "::", SEP) == Collapsed(s)
    decreases |s|
  {
    if s != [] {
      assert |s| >= 2 ==> s[0..2] == [s[0], s[1]];
      if s[0] == ':' && |s| >= 2 && s[1] == ':' { CollapsedIs(s[2..]); } else { CollapsedIs(s[1..]); }
    }
  }

  /** The second one. */
  lemma {:induction false} RestoredIs(s: string)
    ensures Replaced(s, SEP, "::") == Restored(s)
    decreases |s|
  {
    if s != [] {
      assert s[0..1] == [s[0]];
      RestoredIs(s[1..]);
    }
  }

  lemma {:induction false} PairConcat(n: string, t: string)
    requires |n| >= 2 && n[0] == ':' && n[1] == ':'
    requires Collapsed(n[2..] + t) == Collapsed(n[2..]) + Collapsed(t)
    ensures Collapsed(n + t) == Collapsed(n) + Collapsed(t)
  {
    assert (n + t)[0] == n[0] && (n + t)[1] == n[1] && (n + t)[2..] == n[2..] + t;
    Assoc([MARK], Collapsed(n[2..]), Collapsed(t));
  }

  lemma {:induction false} OtherConcat(n: string, t: string)
    requires n != [] && n[0] != ':'
    requires Collapsed(n[1..] + t) == Collapsed(n[1..]) + Collapsed(t)
    ensures Collapsed(n + t) == Collapsed(n) + Collapsed(t)
  {
    assert (n + t)[0] == n[0] && (n + t)[1..] == n[1..] + t;
    Assoc([n[0]], Collapsed(n[1..]), Collapsed(t));
  }

  /** Complete pairs of colons in a name do not reach into what follows. */
  lemma {:induction false} CollapseConcat(n: string, t: string)
    requires EvenRuns(n)
    ensures Collapsed(n + t) == Collapsed(n) + Collapsed(t)
    decreases |n|
  {
    if n == [] {
      assert n + t == t;
    } else if n[0] == ':' {
      CollapseConcat(n[2..], t);
      PairConcat(n, t);
    } else {
      CollapseConcat(n[1..], t);
      OtherConcat(n, t);
    }
  }

  lemma {:induction false} CollapseColonFree(n: string)
    requires EvenRuns(n)
    ensures ColonFree(Collapsed(n))
    decreases |n|
  {
    if n != [] {
      if n[0] == ':' {
        CollapseColonFree(n[2..]);
        assert Collapsed(n)[1..] == Collapsed(n[2..]);
      } else {
        CollapseColonFree(n[1..]);
        assert Collapsed(n)[1..] == Collapsed(n[1..]);
      }
    }
  }

  /** Restoring undoes the collapse of a text without the placeholder. */
  lemma {:induction false} RestoreCollapsed(n: string)
    requires Unmarked(n)
    ensures Restored(Collapsed(n)) == n
    decreases |n|
  {
    if n != [] {
      if n[0] == ':' && |n| >= 2 && n[1] == ':' {
        assert n[1..][1..] == n[2..];
        RestoreCollapsed(n[2..]);
        assert Collapsed(n)[1..] == Collapsed(n[2..]);
      } else {
        RestoreCollapsed(n[1..]);
        assert Collapsed(n)[1..] == Collapsed(n[1..]);
      }
    }
  }

  /** A piece ends at the first colon. */
  lemma {:induction false} SegmentsFirst(c: string, t: string, seg: string)
    requires ColonFree(c)
    ensures Segments(c, seg) == [seg + c]
    ensures Segments(c + (":" + t), seg) == [seg + c] + Segments(t, [])
    decreases |c|
  {
    var s := c + (":" + t);
    if c == [] {
      assert seg + c == seg && s[0] == ':' && s[1..] == t;
    } else {
      SegmentsFirst(c[1..], t, seg + [c[0]]);
      assert s[0] == c[0] && s[1..] == c[1..] + (":" + t);
      assert seg + [c[0]] + c[1..] == seg + c;
    }
  }

  lemma {:induction false} KeptName(n: string)
    requires Sound(n)
    ensures Kept(Collapsed(n)) == [n]
  {
    RestoreCollapsed(n);
    RestoredIs(Collapsed(n));
  }

  /** The first name of a list is split off whole. */
  lemma {:induction false} SplitFirst(n: string, t: string)
    requires Sound(n) && !Starts(t, ':')
    ensures SplitList(n) == [n]
    ensures SplitList(n + (":" + t)) == [n] + SplitList(t)
  {
    var c := Collapsed(n);
    CollapsedIs(n);
    CollapsedIs(t);
    CollapsedIs(n + (":" + t));
    CollapseConcat(n, ":" + t);
    assert (":" + t)[1..] == t && (":" + t)[0] == ':';
    assert Collapsed(":" + t) == ":" + Collapsed(t);
    CollapseColonFree(n);
    SegmentsFirst(c, Collapsed(t), []);
    assert [] + c == c;
    KeptName(n);
    assert [c][1..] == [] && Names([c]) == Kept(c) + Names([]) == [n] + [] == [n];
    var segs := Segments(Collapsed(t), []);
    assert ([c] + segs)[1..] == segs;
  }

  lemma {:induction false} JoinStart(ns: seq<string>)
    requires Inside(ns)
    ensures !Starts(Join(ns), ':')
  {
  }

  lemma {:induction false} SplitEmpty()
    ensures SplitList([]) == []
  {
    var none: string := [];
    assert Segments(none, none) == [none];
    assert Names([none]) == Kept(none) + Names([none][1..]);
  }

  lemma {:induction false} JoinSplits(ns: seq<string>)
    requires Splittable(ns)
    ensures SplitList(Join(ns)) == ns
    decreases ns
  {
    if ns == [] {
      SplitEmpty();
    } else {
      JoinStart(ns[1..]);
      SplitFirst(ns[0], Join(ns[1..]));
      if |ns| > 1 {
        JoinSplits(ns[1..]);
        assert ns == [ns[0]] + ns[1..];
      } else {
        assert ns == [ns[0]];
      }
    }
  }

  /** Restored text has no placeholder, and complete pairs of colons only. */
  lemma {:induction false} RestoredSound(s: string)
    ensures Unmarked(Restored(s)) && (ColonFree(s) ==> EvenRuns(Restored(s)))
    ensures Restored(s) == [] <==> s == []
    ensures Starts(Restored(s), ':') ==> Starts(s, ':') || Starts(s, MARK)
    decreases |s|
  {
    if s != [] {
      var r := Restored(s[1..]);
      RestoredSound(s[1..]);
      if s[0] == MARK {
        assert Restored(s)[1..] == [':'] + r && Restored(s)[2..] == r && ([':'] + r)[1..] == r;
      } else {
        assert Restored(s)[1..] == r;
      }
    }
  }

  /** No placeholder follows a colon. */
  predicate Separated(c: string) {
    c == [] || (Separated(c[1..]) && (c[0] == ':' ==> !Starts(c[1..], MARK)))
  }

  /** In collapsed text a single colon is never followed by a pair. */
  lemma {:induction false} CollapseSeparated(s: string)
    requires Unmarked(s)
    ensures Separated(Collapsed(s))
    decreases |s|
  {
    if s != [] {
      if s[0] == ':' && |s| >= 2 && s[1] == ':' {
        assert s[1..][1..] == s[2..];
        CollapseSeparated(s[2..]);
        assert Collapsed(s)[1..] == Collapsed(s[2..]);
      } else {
        CollapseSeparated(s[1..]);
        assert Collapsed(s)[1..] == Collapsed(s[1..]);
      }
    }
  }

  /** Pieces without colons, none starting with the placeholder. */
  predicate Pieces(segs: seq<string>) {
    segs == [] || (ColonFree(segs[0]) && !Starts(segs[0], MARK) && Pieces(segs[1..]))
  }

  lemma {:induction false} ColonFreeAppend(s: string, c: char)
    requires ColonFree(s) && c != ':'
    ensures ColonFree(s + [c])
  {
    if s != [] {
      ColonFreeAppend(s[1..], c);
      assert (s + [c])[1..] == s[1..] + [c];
    } else {
      assert ([] + [c])[1..] == [];
    }
  }

  /** The pieces of separated text: only the first can start with the placeholder. */
  lemma {:induction false} SegmentsApart(c: string, seg: string)
    requires Separated(c) && ColonFree(seg)
    ensures var segs := Segments(c, seg);
            segs != [] && ColonFree(segs[0]) && Pieces(segs[1..])
    ensures !Starts(seg, MARK) && (seg == [] ==> !Starts(c, MARK)) ==> Pieces(Segments(c, seg))
    decreases |c|
  {
    if c == [] {
      assert [seg][1..] == [];
    } else if c[0] == ':' {
      SegmentsApart(c[1..], []);
      var rest := Segments(c[1..], []);
      assert ([seg] + rest)[1..] == rest;
    } else {
      ColonFreeAppend(seg, c[0]);
      SegmentsApart(c[1..], seg + [c[0]]);
    }
  }

  lemma {:induction false} NamesInside(segs: seq<string>)
    requires Pieces(segs)
    ensures Inside(Names(segs))
  {
    if segs != [] {
      NamesInside(segs[1..]);
      RestoredSound(segs[0]);
      NameFirst(segs);
    }
  }

  lemma {:induction false} NameFirst(segs: seq<string>)
    requires segs != []
    ensures Restored(segs[0]) == [] ==> Names(segs) == Names(segs[1..])
    ensures Restored(segs[0]) != [] ==> Names(segs)[0] == Restored(segs[0]) && Names(segs)[1..] == Names(segs[1..])
    ensures Restored(segs[0]) != [] ==> Names(segs) != []
  {
    RestoredIs(segs[0]);
    assert [] + Names(segs[1..]) == Names(segs[1..]);
    assert Kept(segs[0]) == if Restored(segs[0]) == [] then [] else [Restored(segs[0])];
  }

  /** Whatever is split, the names that come out of text without the placeholder could have been joined. */
  lemma {:induction false} SplitIsSplittable(s: string)
    requires Unmarked(s)
    ensures Splittable(SplitList(s))
  {
    var segs := Segments(Collapsed(s), []);
    CollapsedIs(s);
    CollapseSeparated(s);
    SegmentsApart(Collapsed(s), []);
    NamesInside(segs[1..]);
    RestoredSound(segs[0]);
    NameFirst(segs);
  }

  predicate AllUnmarked(ns: seq<string>) { ns == [] || (Unmarked(ns[0]) && AllUnmarked(ns[1..])) }

  lemma {:induction false} NamesUnmarked(segs: seq<string>)
    ensures AllUnmarked(Names(segs))
  {
    if segs != [] {
      NamesUnmarked(segs[1..]);
      RestoredSound(segs[0]);
      NameFirst(segs);
    }
  }

  lemma {:induction false} UnmarkedConcat(a: string, b: string)
    requires Unmarked(a) && Unmarked(b)
    ensures Unmarked(a + b)
  {
    if a == [] {
      assert a + b == b;
    } else {
      UnmarkedConcat(a[1..], b);
      assert (a + b)[1..] == a[1..] + b;
    }
  }

  lemma {:induction false} JoinUnmarked(ns: seq<string>)
    requires AllUnmarked(ns)
    ensures Unmarked(Join(ns))
  {
    if |ns| > 1 {
      JoinUnmarked(ns[1..]);
      assert (":" + Join(ns[1..]))[1..] == Join(ns[1..]);
      UnmarkedConcat(ns[0], ":" + Join(ns[1..]));
    }
  }

  /** The splitter undoes joining exactly for names that are non-empty, without the placeholder and with colons in
      runs of even length only, of which all but the first do not start with a colon. */
  lemma {:induction false} SplitUndoesJoin(ns: seq<string>)
    ensures SplitList(Join(ns)) == ns <==> Splittable(ns)
  {
    if Splittable(ns) {
      JoinSplits(ns);
    } else if SplitList(Join(ns)) == ns {
      NamesUnmarked(Segments(Replaced(Join(ns), "::", SEP), []));
      JoinUnmarked(ns);
      SplitIsSplittable(Join(ns));
    }
  }

  /* ---------------- the splitter in one pass ---------------- */

  function Named(name: string): seq<string> { if name == [] then [] else [name] }

  /** The names of a list read once from the left: "::" belongs to the name, any other colon ends it, the placeholder
      stands for "::", and empty names are left out. */
  function Scan(s: string, name: string): seq<string>
    decreases |s|
  {
    if s == [] then Named(name)
    else if |s| >= 2 && s[0] == ':' && s[1] == ':' then Scan(s[2..], name + "::")
    else if s[0] == ':' then Named(name) + Scan(s[1..], [])
    else if s[0] == '\U{1}' then Scan(s[1..], name + "::")
    else Scan(s[1..], name + [s[0]])
  }

  lemma {:induction false} RestoredPush(s: string, c: char)
    ensures Restored(s + [c]) == Restored(s) + if c == MARK then "::" else [c]
  {
    if s == [] {
      assert [] + [c] == [c] && Restored([c][1..]) == [];
    } else {
      RestoredPush(s[1..], c);
      assert (s + [c])[1..] == s[1..] + [c];
      assert Restored(s + [c]) == Restored([s[0]] + (s[1..] + [c]));
      Assoc(if s[0] == MARK then [':', ':'] else [s[0]], Restored(s[1..]), if c == MARK then "::" else [c]);
    }
  }

  lemma {:induction false} NamesPush(seg: string, segs: seq<string>)
    ensures Names([seg] + segs) == Named(Restored(seg)) + Names(segs)
  {
    RestoredIs(seg);
    assert ([seg] + segs)[1..] == segs;
  }

  lemma {:induction false} ScanSegments(s: string, seg: string)
    ensures Names(Segments(Collapsed(s), seg)) == Scan(s, Restored(seg))
    decreases |s|
  {
    var c := Collapsed(s);
    if s == [] {
      NamesPush(seg, []);
      assert [seg] + [] == [seg] && Named(Restored(seg)) + [] == Named(Restored(seg));
    } else if |s| >= 2 && s[0] == ':' && s[1] == ':' {
      assert c[0] == MARK && c[1..] == Collapsed(s[2..]);
      RestoredPush(seg, MARK);
      ScanSegments(s[2..], seg + [MARK]);
    } else if s[0] == ':' {
      assert c[0] == ':' && c[1..] == Collapsed(s[1..]);
      NamesPush(seg, Segments(c[1..], []));
      ScanSegments(s[1..], []);
    } else {
      assert c[0] == s[0] && c[1..] == Collapsed(s[1..]);
      RestoredPush(seg, s[0]);
      ScanSegments(s[1..], seg + [s[0]]);
    }
  }

  /** The three loops with their placeholder do, for any text, what reading it once does. */
  lemma {:induction false} SplitIsScan(s: string)
    ensures SplitList(s) == Scan(s, [])
  {
    CollapsedIs(s);
    ScanSegments(s, []);
    assert Restored([]) == [];
  }
}
