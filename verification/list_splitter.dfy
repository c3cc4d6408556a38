/** The splitter of colon-separated name lists, where '::' belongs to a name. */
module ListSplitter {
  import opened Sequences

  /** std::string::find: the first place from p on where pat occurs, |s| when there is none. */
  function FindFrom(s: string, pat: string, p: nat): (i: nat)
    requires p <= |s|
    ensures p <= i <= |s| && (i < |s| ==> OccursAt(s, pat, i))
    decreases |s| - p
  {
    if p == |s| || OccursAt(s, pat, p) then p else FindFrom(s, pat, p + 1)
  }

  predicate OccursAt(s: string, pat: string, i: nat) {
    i + |pat| <= |s| && s[i..i + |pat|] == pat
  }

  /** s with every occurrence of pat, from the left and without overlaps, replaced by rep. */
  function Replaced(s: string, pat: string, rep: string): string
    requires pat != []
    decreases |s|
  {
    if s == [] then []
    else if OccursAt(s, pat, 0) then rep + Replaced(s[|pat|..], pat, rep)
    else [s[0]] + Replaced(s[1..], pat, rep)
  }

  lemma {:induction false} OccursBehind(s: string, pat: string, p: nat)
    requires p <= |s|
    ensures OccursAt(s[p..], pat, 0) <==> OccursAt(s, pat, p)
  {
    if p + |pat| <= |s| { assert s[p..][0..|pat|] == s[p..p + |pat|]; }
  }

  /** A character at which nothing occurs stays. */
  lemma {:induction false} ReplacedKeeps(s: string, pat: string, rep: string, p: nat)
    requires pat != [] && p < |s| && !OccursAt(s, pat, p)
    ensures Replaced(s[p..], pat, rep) == [s[p]] + Replaced(s[p + 1..], pat, rep)
  {
    OccursBehind(s, pat, p);
    assert s[p..][1..] == s[p + 1..];
  }

  lemma {:induction false} Slice(s: string, p: nat, i: nat)
    requires p < i <= |s|
    ensures s[p..i] == [s[p]] + s[p + 1..i]
  {
  }

  /** Text without an occurrence stays. */
  lemma {:induction false} ReplacedSkips(s: string, pat: string, rep: string, p: nat)
    requires pat != [] && p <= |s|
    ensures var i := FindFrom(s, pat, p);
            Replaced(s[p..], pat, rep) == s[p..i] + Replaced(s[i..], pat, rep)
    decreases |s| - p
  {
    if p < |s| && !OccursAt(s, pat, p) {
      var i := FindFrom(s, pat, p + 1);
      ReplacedSkips(s, pat, rep, p + 1);
      ReplacedKeeps(s, pat, rep, p);
      Slice(s, p, i);
      Assoc([s[p]], s[p + 1..i], Replaced(s[i..], pat, rep));
    } else {
      assert s[p..p] == [];
    }
  }

  /** An occurrence is replaced and left behind. */
  lemma {:induction false} ReplacedAt(s: string, pat: string, rep: string, i: nat)
    requires pat != [] && OccursAt(s, pat, i)
    ensures Replaced(s[i..], pat, rep) == rep + Replaced(s[i + |pat|..], pat, rep)
  {
    assert s[i..][0..|pat|] == s[i..i + |pat|];
    assert s[i..][|pat|..] == s[i + |pat|..];
  }

  /** The text of a turn, split where the next occurrence is. */
  lemma {:induction false} TurnPieces(front: string, rep: string, behind: string, t: string, i: nat, before: string,
                                      after: string, rest: string)
    requires t == front + rep + behind && |front + rep| <= i <= |t|
    requires before == rep + after && after == t[|front + rep|..i] + rest
    ensures front + before == t[..i] + rest
  {
    var skipped := t[|front + rep|..i];
    Cut(front + rep, behind, i);
    Assoc(front, rep, skipped + rest);
    Assoc(front + rep, skipped, rest);
  }

  lemma {:induction false} SkipsBehind(t: string, pat: string, rep: string, q: nat, behind: string)
    requires pat != [] && q <= |t| && t[q..] == behind
    ensures var i := FindFrom(t, pat, q); Replaced(behind, pat, rep) == t[q..i] + Replaced(t[i..], pat, rep)
  {
    ReplacedSkips(t, pat, rep, q);
  }

  /** One turn of the replacing loop: an occurrence between front and behind has become rep. */
  lemma {:induction false} ReplaceTurn(front: string, rep: string, behind: string, pat: string, before: string)
    requires pat != [] && before == rep + Replaced(behind, pat, rep)
    ensures var t := front + rep + behind;
            var i := FindFrom(t, pat, |front + rep|);
            front + before == t[..i] + Replaced(t[i..], pat, rep)
  {
    var t := front + rep + behind;
    var i := FindFrom(t, pat, |front + rep|);
    Cut(front + rep, behind, i);
    SkipsBehind(t, pat, rep, |front + rep|, behind);
    TurnPieces(front, rep, behind, t, i, before, Replaced(behind, pat, rep), Replaced(t[i..], pat, rep));
  }

  lemma {:induction false} ReplaceStep(s: string, pat: string, rep: string, p: nat, q: nat, t: string)
    requires pat != [] && OccursAt(s, pat, p) && t == s[..p] + rep + s[p + |pat|..] && q == |s[..p] + rep|
    ensures var i := FindFrom(t, pat, q);
            s[..p] + Replaced(s[p..], pat, rep) == t[..i] + Replaced(t[i..], pat, rep)
  {
    ReplacedAt(s, pat, rep, p);
    ReplaceTurn(s[..p], rep, s[p + |pat|..], pat, Replaced(s[p..], pat, rep));
  }

  /** What the loop keeps at p: an occurrence or the end, and the whole result from what is done and what is not. */
  predicate Replacing(text: string, pat: string, rep: string, s: string, p: nat)
    requires pat != []
  {
    && p <= |s| && (p < |s| ==> OccursAt(s, pat, p))
    && Replaced(text, pat, rep) == s[..p] + Replaced(s[p..], pat, rep)
  }

  lemma {:induction false} ReplacingFirst(text: string, pat: string, rep: string)
    requires pat != []
    ensures Replacing(text, pat, rep, text, FindFrom(text, pat, 0))
  {
    ReplacedSkips(text, pat, rep, 0);
    assert text[0..] == text;
  }

  lemma {:induction false} ReplacingNext(text: string, pat: string, rep: string, s: string, p: nat, t: string)
    requires pat != [] && p < |s| && Replacing(text, pat, rep, s, p) && t == s[..p] + rep + s[p + |pat|..]
    ensures Replacing(text, pat, rep, t, FindFrom(t, pat, p + |rep|))
  {
    ReplaceStep(s, pat, rep, p, p + |rep|, t);
  }

  lemma {:induction false} ReplacingDone(text: string, pat: string, rep: string, s: string)
    requires pat != [] && Replacing(text, pat, rep, s, |s|)
    ensures s == Replaced(text, pat, rep)
  {
    assert s[|s|..] == [] && s[..|s|] == s;
  }

  /** The replacing loop: find the next occurrence, put the replacement in its place, go on behind it. */
  method ReplaceAll(text: string, pat: string, rep: string) returns (s: string)
    requires pat != []
    ensures s == Replaced(text, pat, rep)
  {
    s := text;
    var p: nat := FindFrom(s, pat, 0);
    ReplacingFirst(text, pat, rep);
    while p < |s|
      invariant Replacing(text, pat, rep, s, p)
      decreases |s| - p
    {
      var t := s[..p] + rep + s[p + |pat|..];
      ReplacingNext(text, pat, rep, s, p, t);
      assert |t| - (p + |rep|) == |s| - p - |pat|;
      s := t;
      p := FindFrom(s, pat, p + |rep|);
    }
    ReplacingDone(text, pat, rep, s);
  }

  const SEP: string := "\U{1}"

  /** The pieces of s + ":" between colons, the first with seg in front. */
  function Segments(s: string, seg: string): seq<string>
    decreases |s|
  {
    if s == [] then [seg]
    else if s[0] == ':' then [seg] + Segments(s[1..], [])
    else Segments(s[1..], seg + [s[0]])
  }

  /** A piece restored; an empty one is left out. */
  function Kept(seg: string): seq<string> {
    var name := Replaced(seg, SEP, "::");
    if name == [] then [] else [name]
  }

  function Names(segs: seq<string>): seq<string> {
    if segs == [] then [] else Kept(segs[0]) + Names(segs[1..])
  }

  function SplitList(spec: string): seq<string> {
    Names(Segments(Replaced(spec, "::", SEP), []))
  }

  lemma {:induction false} NamesAppend(segs: seq<string>, seg: string)
    ensures Names(segs + [seg]) == Names(segs) + Kept(seg)
    decreases segs
  {
    if segs == [] {
      assert [] + [seg] == [seg] && [seg][1..] == [];
    } else {
      NamesAppend(segs[1..], seg);
      assert (segs + [seg])[1..] == segs[1..] + [seg];
      Assoc(Kept(segs[0]), Names(segs[1..]), Kept(seg));
    }
  }

  /** What is still to come of the pieces, at place i with seg begun. */
  function Coming(s: string, i: nat, seg: string): seq<string>
    requires i <= |s| + 1
  {
    if i <= |s| then Segments(s[i..], seg) else []
  }

  lemma {:induction false} ComingStep(s: string, i: nat, seg: string)
    requires i <= |s|
    ensures Coming(s, i, seg) == if i == |s| || s[i] == ':' then [seg] + Coming(s, i + 1, [])
                                 else Coming(s, i + 1, seg + [s[i]])
  {
    if i < |s| { assert s[i..][0] == s[i] && s[i..][1..] == s[i + 1..]; }
  }

  /** Appends the names of a list to target: '::' is replaced by a placeholder, the rest split on ':', and the
      placeholder restored in every piece. */
  method Split(spec: string, target0: seq<string>) returns (target: seq<string>)
    ensures target == target0 + SplitList(spec)
  {
    target := target0;
    var s := ReplaceAll(spec, "::", SEP);
    var seg: string := [];
    ghost var segs: seq<string> := [];
    var i := 0;
    assert s[0..] == s;
    while i < |s + ":"|
      invariant i <= |s| + 1
      invariant target == target0 + Names(segs)
      invariant Segments(s, []) == segs + Coming(s, i, seg)
    {
      var c := (s + ":")[i];
      ComingStep(s, i, seg);
      if c == ':' {
        var name := ReplaceAll(seg, SEP, "::");
        NamesAppend(segs, seg);
        Assoc(segs, [seg], Coming(s, i + 1, []));
        Assoc(target0, Names(segs), Kept(seg));
        segs := segs + [seg];
        if name != [] { target := target + [name]; }
        seg := [];
      } else {
        seg := seg + [c];
      }
      i := i + 1;
    }
    assert segs + [] == segs;
  }
}
