/**
 What the token finder promises: where a token, possibly split by one gap,
 occurs in a byte stream; and the automaton that finds it byte by byte.
 */
module TokenSpec {
  import opened Bytes

  // ---------- occurrences, declaratively ----------

  ghost predicate Distinct(t: seq<Byte>) {
    forall i, j :: 0 <= i < j < |t| ==> t[i] != t[j]
  }

  /** The first b bytes of p are also the last b of its first k. */
  ghost predicate Border(p: seq<Byte>, k: int, b: int) {
    1 <= b < k < |p| && p[..b] == p[k - b..k]
  }

  /** Where a search of p fails, no shorter beginning of p goes on: it may start anew with the failing byte. */
  ghost predicate Restartable(p: seq<Byte>) {
    forall k, b :: Border(p, k, b) ==> p[b] == p[k]
  }

  /** Both groups of the token, cut at g, can be searched that way. */
  ghost predicate Faultless(t: seq<Byte>, g: int) {
    1 <= g <= |t| && Restartable(t[..g]) && Restartable(t[g..])
  }

  ghost predicate Findable(t: seq<Byte>) {
    forall g :: 1 <= g <= |t| ==> Faultless(t, g)
  }

  /** p stands in s at offset i. */
  ghost predicate At(p: seq<Byte>, s: seq<Byte>, i: int) {
    0 <= i <= |s| - |p| && s[i..i + |p|] == p
  }

  ghost predicate Occurs(p: seq<Byte>, s: seq<Byte>) {
    exists i :: At(p, s, i)
  }

  ghost predicate FirstAt(p: seq<Byte>, s: seq<Byte>, i: int) {
    At(p, s, i) && forall j :: 0 <= j < i ==> !At(p, s, j)
  }

  /** s holds t[..g] and, later and without overlap, t[g..]. */
  ghost predicate GapMatch(t: seq<Byte>, g: int, s: seq<Byte>)
    requires 0 <= g <= |t|
  {
    exists i, j :: GapAt(t, g, s, i, j)
  }

  ghost predicate GapAt(t: seq<Byte>, g: int, s: seq<Byte>, i: int, j: int)
    requires 0 <= g <= |t|
  {
    At(t[..g], s, i) && i + g <= j && At(t[g..], s, j)
  }

  /** s holds the token with at most one gap. */
  ghost predicate AnyMatch(t: seq<Byte>, s: seq<Byte>) {
    exists g :: 1 <= g <= |t| && GapMatch(t, g, s)
  }

  /** p[..k] is the shortest prefix of p that holds the token. */
  ghost predicate ShortestMatch(t: seq<Byte>, p: seq<Byte>, k: int) {
    0 <= k <= |p| && AnyMatch(t, p[..k]) && forall j :: 0 <= j < k ==> !AnyMatch(t, p[..j])
  }

  /** The latest gap with which w holds the token. */
  ghost predicate BestGap(t: seq<Byte>, w: seq<Byte>, g: int) {
    1 <= g <= |t| && GapMatch(t, g, w) && forall h :: g < h <= |t| ==> !GapMatch(t, h, w)
  }

  /** r is what stands before the token in w. */
  ghost predicate BeforeToken(t: seq<Byte>, w: seq<Byte>, r: seq<Byte>) {
    exists g :: BestGap(t, w, g) && FirstAt(t[..g], w, |r|) && r == w[..|r|]
  }

  /** Reading a token from p: k bytes are consumed and r is returned. */
  ghost predicate TokenRead(t: seq<Byte>, p: seq<Byte>, k: int, r: seq<Byte>) {
    ShortestMatch(t, p, k) && BeforeToken(t, p[..k], r)
  }

  lemma AtExtends(p: seq<Byte>, s: seq<Byte>, w: seq<Byte>, i: int)
    requires At(p, s, i)
    ensures At(p, s + w, i)
  {
    assert (s + w)[i..i + |p|] == s[i..i + |p|];
  }

  lemma AnyMatchExtends(t: seq<Byte>, s: seq<Byte>, w: seq<Byte>)
    requires AnyMatch(t, s)
    ensures AnyMatch(t, s + w)
  {
    var g :| 1 <= g <= |t| && GapMatch(t, g, s);
    var i, j :| GapAt(t, g, s, i, j);
    AtExtends(t[..g], s, w, i);
    AtExtends(t[g..], s, w, j);
    assert GapAt(t, g, s + w, i, j);
    assert GapMatch(t, g, s + w);
  }

  // ---------- the automaton for one group of the token ----------

  ghost predicate EndsWith(s: seq<Byte>, p: seq<Byte>) {
    |p| <= |s| && s[|s| - |p|..] == p
  }

  /** k is the length of the longest proper prefix of p that s ends with. */
  ghost predicate Tail(p: seq<Byte>, s: seq<Byte>, k: int) {
    0 <= k < |p| && EndsWith(s, p[..k]) && forall j :: k < j < |p| ==> !EndsWith(s, p[..j])
  }

  function Next(p: seq<Byte>, k: nat, c: Byte): nat
    requires k < |p|
  {
    if p[k] == c then k + 1 else if p[0] == c then 1 else 0
  }

  lemma EndsWithStep(p: seq<Byte>, s: seq<Byte>, c: Byte, j: int)
    requires 1 <= j <= |p|
    ensures EndsWith(s + [c], p[..j]) <==> p[j - 1] == c && (j == 1 || EndsWith(s, p[..j - 1]))
  {
    var s', q := s + [c], p[..j];
    assert q == p[..j - 1] + [p[j - 1]];
    if |q| <= |s'| {
      assert s'[|s'| - |q|..] == s[|s| - (j - 1)..] + [c];
      if EndsWith(s', q) {
        assert s'[|s'| - |q|..][j - 1] == q[j - 1];
        assert s'[|s'| - |q|..][..j - 1] == q[..j - 1];
      }
    }
  }

  lemma OccursStep(p: seq<Byte>, s: seq<Byte>, c: Byte)
    requires |p| > 0
    ensures Occurs(p, s + [c]) <==> Occurs(p, s) || EndsWith(s + [c], p)
    ensures !Occurs(p, s) && EndsWith(s + [c], p) ==> FirstAt(p, s + [c], |s| + 1 - |p|)
  {
    var s' := s + [c];
    if i :| At(p, s, i) {
      AtExtends(p, s, [c], i);
    }
    forall i | At(p, s', i) && i < |s'| - |p|
      ensures At(p, s, i)
    {
      assert s'[i..i + |p|] == s[i..i + |p|];
    }
    if EndsWith(s', p) {
      assert At(p, s', |s'| - |p|);
    }
    if i :| At(p, s', i) {
      assert i == |s'| - |p| ==> s'[i..i + |p|] == s'[|s'| - |p|..];
    }
  }

  /** A shorter beginning of p that s ends with does not go on with c where the longest does not. */
  lemma NoShorter(p: seq<Byte>, s: seq<Byte>, k: int, b: int, c: Byte)
    requires Restartable(p) && Tail(p, s, k) && p[k] != c
    requires 1 <= b < k && EndsWith(s, p[..b])
    ensures p[b] != c
  {
    assert p[..k] == s[|s| - k..];
    assert p[k - b..k] == s[|s| - k..][k - b..] == s[|s| - b..];
    assert Border(p, k, b);
  }

  lemma ScanStep(p: seq<Byte>, s: seq<Byte>, k: nat, c: Byte)
    requires Restartable(p) && !Occurs(p, s) && Tail(p, s, k)
    ensures Next(p, k, c) == |p| ==> FirstAt(p, s + [c], |s| + 1 - |p|)
    ensures Next(p, k, c) < |p| ==> !Occurs(p, s + [c]) && Tail(p, s + [c], Next(p, k, c))
  {
    hide Restartable, EndsWith;
    var k' := Next(p, k, c);
    EndsWithNothing(p, s + [c]);
    if k' > 0 {
      EndsWithStep(p, s, c, k');
    }
    forall j | k' < j <= |p|
      ensures !EndsWith(s + [c], p[..j])
    {
      EndsWithStep(p, s, c, j);
      if 1 <= j - 1 < k && p[k] != c && EndsWith(s, p[..j - 1]) {
        NoShorter(p, s, k, j - 1, c);
      }
    }
    assert p[..|p|] == p;
    OccursStep(p, s, c);
  }

  lemma EndsWithNothing(p: seq<Byte>, s: seq<Byte>)
    ensures EndsWith(s, p[..0])
  {
  }

  lemma ScanStart(p: seq<Byte>)
    requires |p| > 0
    ensures !Occurs(p, []) && Tail(p, [], 0)
  {
  }

  // ---------- the matcher for one gap position ----------

  /** The fields of a FixedGapMatcher. */
  datatype Matcher = Matcher(first: nat, last: nat, start: Option<nat>)

  function Start(g: nat): Matcher { Matcher(0, g, None) }

  ghost predicate InRange(t: seq<Byte>, g: nat, m: Matcher) {
    1 <= g <= |t| && m.first <= g <= m.last <= |t| && (m.first < g ==> m.last == g)
  }

  function AfterLast(t: seq<Byte>, g: nat, m: Matcher, c: Byte): (r: Matcher)
    requires InRange(t, g, m)
    ensures InRange(t, g, r) && r.last <= m.last + 1
  {
    if m.first >= g && m.last < |t| then
      m.(last := if t[m.last] == c then m.last + 1 else g + (if t[g] == c then 1 else 0))
    else m
  }

  function AfterFirst(t: seq<Byte>, g: nat, m: Matcher, c: Byte, pos: nat): (r: Matcher)
    requires InRange(t, g, m)
    ensures InRange(t, g, r) && r.last == m.last && r.first <= m.first + 1
    decreases m.first
  {
    if m.first >= g then m
    else if t[m.first] == c then
      m.(first := m.first + 1, start := if m.start == None then Some(pos) else m.start)
    else if m.first > 0 then AfterFirst(t, g, m.(first := 0, start := None), c, pos)
    else m.(start := None)
  }

  /** One byte: at most one of the two groups moves, and by one byte at most. */
  function Feed(t: seq<Byte>, g: nat, m: Matcher, c: Byte, pos: nat): (r: Matcher)
    requires InRange(t, g, m)
    ensures InRange(t, g, r) && r.first + r.last <= m.first + m.last + 1
  {
    AfterFirst(t, g, AfterLast(t, g, m, c), c, pos)
  }

  function Run(t: seq<Byte>, g: nat, s: seq<Byte>): (m: Matcher)
    requires 1 <= g <= |t|
    ensures InRange(t, g, m)
  {
    if s == [] then Start(g) else Feed(t, g, Run(t, g, s[..|s| - 1]), s[|s| - 1], |s| - 1)
  }

  ghost predicate Full(t: seq<Byte>, g: nat, m: Matcher) { m.first >= g && m.last >= |t| }

  /** The matcher of gap g reports a full match. */
  ghost predicate Hit(t: seq<Byte>, g: int, s: seq<Byte>) { 1 <= g <= |t| && Full(t, g, Run(t, g, s)) }

  /** Some matcher does. */
  ghost predicate Detected(t: seq<Byte>, s: seq<Byte>) { exists g :: Hit(t, g, s) }

  ghost predicate LastHit(t: seq<Byte>, s: seq<Byte>, g: int) { Hit(t, g, s) && forall h :: h > g ==> !Hit(t, h, s) }

  /** What the fields say about the stream seen since the reset. */
  ghost predicate Explains(t: seq<Byte>, g: nat, s: seq<Byte>, m: Matcher)
    requires InRange(t, g, m)
  {
    var p, q := t[..g], t[g..];
    if m.first < g then
      !Occurs(p, s) && Tail(p, s, m.first) &&
      m.start == if m.first == 0 then None else Some(|s| - m.first)
    else
      m.start.Some? && FirstAt(p, s, m.start.value) &&
      var rest := s[m.start.value + g..];
      if m.last < |t| then !Occurs(q, rest) && Tail(q, rest, m.last - g) else Occurs(q, rest)
  }

  lemma {:induction false} RunExplains(t: seq<Byte>, g: nat, s: seq<Byte>)
    requires Faultless(t, g)
    ensures Explains(t, g, s, Run(t, g, s))
  {
    var p, q := t[..g], t[g..];
    if s == [] {
      ScanStart(p);
    } else {
      var s0, c := s[..|s| - 1], s[|s| - 1];
      assert s == s0 + [c];
      RunExplains(t, g, s0);
      var m := Run(t, g, s0);
      if m.first < g {
        FirstStep(t, g, s0, m, c);
      } else {
        LastStep(t, g, s0, m, c);
      }
    }
  }

  lemma FirstStep(t: seq<Byte>, g: nat, s: seq<Byte>, m: Matcher, c: Byte)
    requires Faultless(t, g) && InRange(t, g, m) && m.first < g
    requires Explains(t, g, s, m)
    ensures Explains(t, g, s + [c], Feed(t, g, m, c, |s|))
  {
    var p, q := t[..g], t[g..];
    ScanStep(p, s, m.first, c);
    assert p[m.first] == t[m.first] && p[0] == t[0];
    var m' := AfterFirst(t, g, m, c, |s|);
    if t[m.first] != c && m.first > 0 {
      assert m' == AfterFirst(t, g, m.(first := 0, start := None), c, |s|);
    }
    assert m'.first == Next(p, m.first, c);
    if m'.first == g {
      assert (s + [c])[m'.start.value + g..] == [];
      if q == [] {
        assert At(q, [], 0);
      } else {
        ScanStart(q);
      }
    }
  }

  lemma OccursThere(p: seq<Byte>, s: seq<Byte>, i: int)
    requires At(p, s, i)
    ensures Occurs(p, s)
  {
  }

  lemma LastStep(t: seq<Byte>, g: nat, s: seq<Byte>, m: Matcher, c: Byte)
    requires Faultless(t, g) && InRange(t, g, m) && m.first == g
    requires Explains(t, g, s, m)
    ensures Explains(t, g, s + [c], Feed(t, g, m, c, |s|))
  {
    hide Occurs, Tail, Restartable;
    var p, q, e := t[..g], t[g..], m.start.value + g;
    FirstAtExtends(p, s, c, m.start.value);
    assert (s + [c])[e..] == s[e..] + [c];
    if m.last < |t| {
      assert q[m.last - g] == t[m.last] && q[0] == t[g];
      ScanStep(q, s[e..], m.last - g, c);
      if Next(q, m.last - g, c) == |q| {
        OccursThere(q, s[e..] + [c], |s[e..]| + 1 - |q|);
      }
    } else {
      OccursStepAny(q, s[e..], c);
    }
  }

  lemma FirstAtExtends(p: seq<Byte>, s: seq<Byte>, c: Byte, i: int)
    requires FirstAt(p, s, i)
    ensures FirstAt(p, s + [c], i)
  {
    AtExtends(p, s, [c], i);
    forall j | 0 <= j < i
      ensures !At(p, s + [c], j)
    {
      if At(p, s + [c], j) {
        assert (s + [c])[j..j + |p|] == s[j..j + |p|];
        assert At(p, s, j);
      }
    }
  }

  lemma OccursStepAny(p: seq<Byte>, s: seq<Byte>, c: Byte)
    requires Occurs(p, s)
    ensures Occurs(p, s + [c])
  {
    var i :| At(p, s, i);
    AtExtends(p, s, [c], i);
  }

  lemma SuffixAt(p: seq<Byte>, s: seq<Byte>, e: nat, j: int)
    requires e <= |s| && e <= j
    ensures At(p, s, j) <==> At(p, s[e..], j - e)
  {
    if j + |p| <= |s| {
      assert s[j..j + |p|] == s[e..][j - e..j - e + |p|];
    }
  }

  /** The matcher reports a full match exactly when the stream holds the two groups in order. */
  lemma MatcherCorrect(t: seq<Byte>, g: nat, s: seq<Byte>)
    requires Faultless(t, g)
    ensures Full(t, g, Run(t, g, s)) <==> GapMatch(t, g, s)
    ensures GapMatch(t, g, s) ==>
              Run(t, g, s).start.Some? && FirstAt(t[..g], s, Run(t, g, s).start.value)
  {
    RunExplains(t, g, s);
    var m := Run(t, g, s);
    var p, q := t[..g], t[g..];
    if Full(t, g, m) {
      var e := m.start.value + g;
      var k :| At(q, s[e..], k);
      SuffixAt(q, s, e, k + e);
      assert GapAt(t, g, s, m.start.value, k + e);
    }
    if i, j :| GapAt(t, g, s, i, j) {
      assert m.first == g;
      var e := m.start.value + g;
      assert m.start.value <= i;
      SuffixAt(q, s, e, j);
      assert At(q, s[e..], j - e);
    }
  }

  // ---------- tokens of any kind ----------

  /** What the fields say about the stream whatever the token is. */
  ghost predicate Reached(t: seq<Byte>, g: nat, s: seq<Byte>, m: Matcher)
    requires InRange(t, g, m)
  {
    var p, q := t[..g], t[g..];
    if m.first < g then
      EndsWith(s, p[..m.first]) && m.start == if m.first == 0 then None else Some(|s| - m.first)
    else
      m.start.Some? && At(p, s, m.start.value) &&
      var rest := s[m.start.value + g..];
      if m.last < |t| then EndsWith(rest, q[..m.last - g]) else Occurs(q, rest)
  }

  lemma {:induction false} RunReaches(t: seq<Byte>, g: nat, s: seq<Byte>)
    requires 1 <= g <= |t|
    ensures Reached(t, g, s, Run(t, g, s))
  {
    hide Reached;
    if s == [] {
      ReachedNothing(t, g);
    } else {
      var s0, c := s[..|s| - 1], s[|s| - 1];
      assert s == s0 + [c];
      RunReaches(t, g, s0);
      var m := Run(t, g, s0);
      if m.first < g {
        FirstReaches(t, g, s0, m, c);
      } else {
        LastReaches(t, g, s0, m, c);
      }
    }
  }

  lemma ReachedNothing(t: seq<Byte>, g: nat)
    requires 1 <= g <= |t|
    ensures Reached(t, g, [], Start(g))
  {
  }

  lemma EndsAfter(p: seq<Byte>, s: seq<Byte>, k: nat, c: Byte)
    requires k < |p| && EndsWith(s, p[..k])
    ensures EndsWith(s + [c], p[..Next(p, k, c)])
    ensures Next(p, k, c) == |p| ==> At(p, s + [c], |s| + 1 - |p|)
  {
    var k' := Next(p, k, c);
    if k' > 0 {
      EndsWithStep(p, s, c, k');
    }
    assert p[..|p|] == p;
  }

  lemma FirstReaches(t: seq<Byte>, g: nat, s: seq<Byte>, m: Matcher, c: Byte)
    requires InRange(t, g, m) && m.first < g && Reached(t, g, s, m)
    ensures Reached(t, g, s + [c], Feed(t, g, m, c, |s|))
  {
    var p, q := t[..g], t[g..];
    EndsAfter(p, s, m.first, c);
    assert p[m.first] == t[m.first] && p[0] == t[0];
    var m' := AfterFirst(t, g, m, c, |s|);
    if t[m.first] != c && m.first > 0 {
      assert m' == AfterFirst(t, g, m.(first := 0, start := None), c, |s|);
    }
    assert m'.first == Next(p, m.first, c);
    if m'.first == g {
      assert (s + [c])[m'.start.value + g..] == [];
      assert q == [] ==> At(q, [], 0);
    }
  }

  lemma LastReaches(t: seq<Byte>, g: nat, s: seq<Byte>, m: Matcher, c: Byte)
    requires InRange(t, g, m) && m.first == g && Reached(t, g, s, m)
    ensures Reached(t, g, s + [c], Feed(t, g, m, c, |s|))
  {
    hide Occurs, EndsWith;
    var p, q, e := t[..g], t[g..], m.start.value + g;
    AtExtends(p, s, [c], m.start.value);
    assert (s + [c])[e..] == s[e..] + [c];
    if m.last < |t| {
      assert q[m.last - g] == t[m.last] && q[0] == t[g];
      EndsAfter(q, s[e..], m.last - g, c);
      if Next(q, m.last - g, c) == |q| {
        OccursThere(q, s[e..] + [c], |s[e..]| + 1 - |q|);
      }
    } else {
      OccursStepAny(q, s[e..], c);
    }
  }

  /** No matcher reports what is not there, whatever the token. */
  lemma HitIsMatch(t: seq<Byte>, g: nat, s: seq<Byte>)
    requires Hit(t, g, s)
    ensures GapMatch(t, g, s) && Run(t, g, s).start.Some? && At(t[..g], s, Run(t, g, s).start.value)
  {
    hide Run;
    RunReaches(t, g, s);
    var m := Run(t, g, s);
    var q, e := t[g..], m.start.value + g;
    var k :| At(q, s[e..], k);
    SuffixAt(q, s, e, k + e);
    assert GapAt(t, g, s, m.start.value, k + e);
  }

  /** What the finder detects is there; and where each gap can be searched it detects all that is. */
  lemma DetectedExactly(t: seq<Byte>, s: seq<Byte>)
    ensures Detected(t, s) ==> AnyMatch(t, s)
    ensures Findable(t) ==> (Detected(t, s) <==> AnyMatch(t, s)) && forall g :: LastHit(t, s, g) <==> BestGap(t, s, g)
  {
    hide Hit, GapMatch, Faultless;
    forall g | 1 <= g <= |t|
      ensures (Hit(t, g, s) ==> GapMatch(t, g, s)) && (Faultless(t, g) ==> (Hit(t, g, s) <==> GapMatch(t, g, s)))
    {
      HitExactly(t, g, s);
    }
    forall g | Hit(t, g, s)
      ensures 1 <= g <= |t|
    {
      HitInRange(t, g, s);
    }
  }

  lemma HitInRange(t: seq<Byte>, g: int, s: seq<Byte>)
    requires Hit(t, g, s)
    ensures 1 <= g <= |t|
  {
  }

  lemma HitExactly(t: seq<Byte>, g: nat, s: seq<Byte>)
    requires 1 <= g <= |t|
    ensures Hit(t, g, s) ==> GapMatch(t, g, s)
    ensures Faultless(t, g) ==> (Hit(t, g, s) <==> GapMatch(t, g, s))
  {
    if Hit(t, g, s) {
      HitIsMatch(t, g, s);
    }
    if Faultless(t, g) {
      MatcherCorrect(t, g, s);
    }
  }

  // ---------- the matcher over all gap positions ----------

  function Pass(t: seq<Byte>, g: nat, s: seq<Byte>): (n: nat)
    requires 1 <= g <= |t|
    ensures n <= |t|
  {
    var m := Run(t, g, s);
    m.first + m.last - g
  }

  /** The best pass over the gaps 1..h. */
  function MaxPassUpTo(t: seq<Byte>, h: nat, s: seq<Byte>): (n: nat)
    requires 1 <= h <= |t|
    ensures n <= |t|
    ensures forall g :: 1 <= g <= h ==> Pass(t, g, s) <= n
    ensures exists g :: 1 <= g <= h && Pass(t, g, s) == n
  {
    if h == 1 then Pass(t, 1, s) else Max(Pass(t, h, s), MaxPassUpTo(t, h - 1, s))
  }

  function MaxPass(t: seq<Byte>, s: seq<Byte>): (n: nat)
    requires |t| > 0
  {
    MaxPassUpTo(t, |t|, s)
  }

  lemma MaxPassFull(t: seq<Byte>, s: seq<Byte>)
    requires |t| > 0
    ensures MaxPass(t, s) <= |t|
    ensures MaxPass(t, s) == |t| <==> Detected(t, s)
  {
    hide Run;
    var g :| 1 <= g <= |t| && Pass(t, g, s) == MaxPassUpTo(t, |t|, s);
    assert Pass(t, g, s) == |t| <==> Hit(t, g, s);
    if h :| Hit(t, h, s) {
      assert Pass(t, h, s) == |t|;
    }
  }

  lemma {:induction false} PassGrows(t: seq<Byte>, g: nat, s: seq<Byte>, w: seq<Byte>)
    requires 1 <= g <= |t|
    ensures Pass(t, g, s + w) <= Pass(t, g, s) + |w|
  {
    if w == [] {
      assert s + w == s;
    } else {
      var w0 := w[..|w| - 1];
      PassGrows(t, g, s, w0);
      assert (s + w)[..|s + w| - 1] == s + w0;
      assert (s + w)[|s + w| - 1] == w[|w| - 1];
    }
  }

  /** A block of |t| - MaxPass bytes can complete the token only with its last byte. */
  lemma BlockIsSafe(t: seq<Byte>, s: seq<Byte>, w: seq<Byte>)
    requires |t| > 0 && |w| < |t| - MaxPass(t, s)
    ensures !Detected(t, s + w) && (Findable(t) ==> !AnyMatch(t, s + w))
  {
    MaxPassFull(t, s + w);
    DetectedExactly(t, s + w);
    var g :| 1 <= g <= |t| && Pass(t, g, s + w) == MaxPassUpTo(t, |t|, s + w);
    PassGrows(t, g, s, w);
  }

  /** Feeding the byte that the matcher waits for moves it by one. */
  lemma WantedByte(t: seq<Byte>, g: nat, m: Matcher, pos: nat)
    requires InRange(t, g, m) && m.first + m.last - g < |t|
    ensures var r := Feed(t, g, m, t[m.first + m.last - g], pos);
            r.first + r.last == m.first + m.last + 1
  {
  }

  lemma PassStep(t: seq<Byte>, g: nat, s: seq<Byte>, c: Byte)
    requires 1 <= g <= |t| && Pass(t, g, s) < |t| && c == t[Pass(t, g, s)]
    ensures Pass(t, g, s + [c]) == Pass(t, g, s) + 1
  {
    assert (s + [c])[..|s|] == s;
    WantedByte(t, g, Run(t, g, s), |s|);
  }

  lemma {:induction false} RunAppend(t: seq<Byte>, g: nat, s: seq<Byte>, k: nat, n: nat)
    requires 1 <= g <= |t| && k == Pass(t, g, s) && k + n <= |t|
    ensures Pass(t, g, s + t[k..k + n]) == k + n
  {
    hide Pass;
    if n == 0 {
      assert s + t[k..k] == s;
    } else {
      RunAppend(t, g, s, k, n - 1);
      PassStep(t, g, s + t[k..k + n - 1], t[k + n - 1]);
      assert t[k..k + n] == t[k..k + n - 1] + [t[k + n - 1]];
      Assoc(s, t[k..k + n - 1], [t[k + n - 1]]);
    }
  }

  /** No longer block would be safe: some block of that length completes the token. */
  lemma BlockIsLongest(t: seq<Byte>, s: seq<Byte>)
    requires |t| > 0
    ensures Detected(t, s + t[MaxPass(t, s)..]) && AnyMatch(t, s + t[MaxPass(t, s)..])
  {
    hide Run;
    var g :| 1 <= g <= |t| && Pass(t, g, s) == MaxPassUpTo(t, |t|, s);
    var k := MaxPass(t, s);
    RunAppend(t, g, s, k, |t| - k);
    assert t[k..|t|] == t[k..];
    assert Hit(t, g, s + t[k..]);
    DetectedExactly(t, s + t[k..]);
  }

  // ---------- for which tokens the matcher is right ----------

  lemma DistinctIsFindable(t: seq<Byte>)
    requires Distinct(t)
    ensures Findable(t)
  {
    forall g, k, b | 1 <= g <= |t|
      ensures !Border(t[..g], k, b) && !Border(t[g..], k, b)
    {
      NoBorder(t[..g], k, b);
      NoBorder(t[g..], k, b);
    }
  }

  lemma NoBorder(p: seq<Byte>, k: int, b: int)
    requires Distinct(p)
    ensures !Border(p, k, b)
  {
    if 1 <= b < k < |p| {
      assert p[..b][0] == p[0] && p[k - b..k][0] == p[k - b];
    }
  }

  /** The bytes of a token need not differ. */
  lemma EqualBytesAreFindable(t: seq<Byte>)
    requires forall i, j :: 0 <= i < j < |t| ==> t[i] == t[j]
    ensures Findable(t)
  {
  }

  /** The fields after n bytes of the token itself. */
  lemma RunToken(t: seq<Byte>, g: nat, n: nat)
    requires 1 <= g <= |t| && n <= |t|
    ensures var m := Run(t, g, t[..n]); if n < g then m.first == n && m.last == g else m.first == g && m.last == n
  {
    assert [] + t[0..n] == t[..n];
    RunAppend(t, g, [], 0, n);
  }

  /** After n bytes of the token, of which some belong to the group that is being searched, a wrong
      byte leaves at most one byte of that group. */
  lemma WrongByte(t: seq<Byte>, g: nat, n: nat, c: Byte)
    requires 1 <= g <= |t| && 0 < n < |t| && n != g && c != t[n]
    ensures Pass(t, g, t[..n] + [c]) <= if n < g then 1 else g + 1
  {
    hide Run;
    RunToken(t, g, n);
    RunOneMore(t, g, t[..n], c);
  }

  lemma RunOneMore(t: seq<Byte>, g: nat, s: seq<Byte>, c: Byte)
    requires 1 <= g <= |t|
    ensures Run(t, g, s + [c]) == Feed(t, g, Run(t, g, s), c, |s|)
  {
    assert (s + [c])[..|s|] == s;
  }

  /** The group that ends at e has a border of b bytes at n, which goes on differently: the stream that
      follows the token up to n, and then goes on behind the border, holds the token and is not recognised. */
  lemma Missed(t: seq<Byte>, g: nat, lo: nat, e: nat, k: nat, b: nat) returns (s: seq<Byte>)
    requires 1 <= g <= |t| && ((lo == 0 && e == g) || (lo == g && e == |t|))
    requires Border(t[lo..e], k, b) && t[lo..e][b] != t[lo..e][k]
    ensures GapMatch(t, g, s) && !Full(t, g, Run(t, g, s))
  {
    hide Run;
    var c, w := t[lo + b], t[lo + b + 1..];
    s := t[..lo + k] + t[lo + b..];
    assert t[lo + b..] == [c] + w;
    Assoc(t[..lo + k], [c], w);
    WrongByte(t, g, lo + k, c);
    PassGrows(t, g, t[..lo + k] + [c], w);
    StreamHolds(t, g, lo, e, k, b);
  }

  lemma SliceOfSlice(t: seq<Byte>, lo: nat, e: nat, x: nat, y: nat)
    requires lo <= e <= |t| && x <= y <= e - lo
    ensures t[lo..e][x..y] == t[lo + x..lo + y]
  {
    assert forall i :: 0 <= i < y - x ==> t[lo..e][x..y][i] == t[lo + x..lo + y][i];
  }

  lemma StreamHolds(t: seq<Byte>, g: nat, lo: nat, e: nat, k: nat, b: nat)
    requires 1 <= g <= |t| && ((lo == 0 && e == g) || (lo == g && e == |t|))
    requires Border(t[lo..e], k, b)
    ensures GapMatch(t, g, t[..lo + k] + t[lo + b..])
  {
    var s := t[..lo + k] + t[lo + b..];
    var i := lo + k - b;
    SliceOfSlice(t, lo, e, 0, b);
    SliceOfSlice(t, lo, e, k - b, k);
    assert t[lo..e][..b] == t[lo..e][0..b];
    assert s[i..lo + k] == t[lo..lo + b];
    assert s[lo + k..] == t[lo + b..];
    assert s[i..] == t[lo..lo + b] + t[lo + b..] == t[lo..];
    if lo == 0 {
      assert s[i..i + g] == s[i..][..g] == t[..g] && s[i + g..] == s[i..][g..] == t[g..];
      assert GapAt(t, g, s, i, i + g);
    } else {
      assert s[..g] == t[..g] && s[0..g] == t[..g];
      assert |s| - i == |t| - g && s[i..|s|] == t[g..];
      assert GapAt(t, g, s, 0, i);
    }
  }

  /** For every token and every gap position: the matcher recognises exactly the streams that hold
      the token if and only if both groups can be searched without going back. */
  lemma CorrectExactlyWhen(t: seq<Byte>, g: nat)
    requires 1 <= g <= |t|
    ensures (forall s :: Full(t, g, Run(t, g, s)) <==> GapMatch(t, g, s)) <==> Faultless(t, g)
  {
    hide Run;
    if Faultless(t, g) {
      forall s
        ensures Full(t, g, Run(t, g, s)) <==> GapMatch(t, g, s)
      {
        MatcherCorrect(t, g, s);
      }
    } else if !Restartable(t[..g]) {
      var k, b :| Border(t[..g], k, b) && t[..g][b] != t[..g][k];
      assert t[0..g] == t[..g];
      var s := Missed(t, g, 0, g, k, b);
    } else {
      var k, b :| Border(t[g..], k, b) && t[g..][b] != t[g..][k];
      assert t[g..|t|] == t[g..];
      var s := Missed(t, g, g, |t|, k, b);
    }
  }

  /** The example of the code's own warning: the token x0110, cut behind x0, is in x0 01 110, and no gap finds it. */
  lemma WarnedToken()
    ensures var t, s := [120, 48, 49, 49, 48], [120, 48, 48, 49, 49, 49, 48]; AnyMatch(t, s) && !Detected(t, s)
  {
    hide Run;
    var t, s := [120, 48, 49, 49, 48], [120, 48, 48, 49, 49, 49, 48];
    assert t[..2] == [120, 48] == s[0..2] && t[2..] == [49, 49, 48] == s[4..7];
    assert GapAt(t, 2, s, 0, 4);
    assert GapMatch(t, 2, s);
    forall g
      ensures !Hit(t, g, s)
    {
      if g == 1 {
        MissedBehindX(t, s);
      } else if g == 2 {
        MissedBehindX0(t, s);
      } else if 3 <= g <= 5 {
        MissedLater(t, g, s);
      }
    }
  }

  ghost predicate Warned(t: seq<Byte>, s: seq<Byte>) {
    |t| == 5 && t[0] == 120 && t[1] == 48 && t[2] == 49 && t[3] == 49 && t[4] == 48 &&
    |s| == 7 && s[0] == 120 && s[1] == s[2] == 48 && s[3] == s[4] == s[5] == 49 && s[6] == 48
  }

  lemma MissedBehindX(t: seq<Byte>, s: seq<Byte>)
    requires Warned(t, s)
    ensures Run(t, 1, s) == Matcher(1, 2, Some(0))
  {
    hide Run;
    assert s[..0] == [] && s[..7] == s;
    StartOfRun(t, 1);
    RunStep(t, 1, s, 0, Start(1), Matcher(1, 1, Some(0)));
    RunStep(t, 1, s, 1, Matcher(1, 1, Some(0)), Matcher(1, 2, Some(0)));
    RunStep(t, 1, s, 2, Matcher(1, 2, Some(0)), Matcher(1, 2, Some(0)));
    RunStep(t, 1, s, 3, Matcher(1, 2, Some(0)), Matcher(1, 3, Some(0)));
    RunStep(t, 1, s, 4, Matcher(1, 3, Some(0)), Matcher(1, 4, Some(0)));
    RunStep(t, 1, s, 5, Matcher(1, 4, Some(0)), Matcher(1, 1, Some(0)));
    RunStep(t, 1, s, 6, Matcher(1, 1, Some(0)), Matcher(1, 2, Some(0)));
  }

  lemma MissedBehindX0(t: seq<Byte>, s: seq<Byte>)
    requires Warned(t, s)
    ensures Run(t, 2, s) == Matcher(2, 2, Some(0))
  {
    hide Run;
    assert s[..0] == [] && s[..7] == s;
    StartOfRun(t, 2);
    RunStep(t, 2, s, 0, Start(2), Matcher(1, 2, Some(0)));
    RunStep(t, 2, s, 1, Matcher(1, 2, Some(0)), Matcher(2, 2, Some(0)));
    RunStep(t, 2, s, 2, Matcher(2, 2, Some(0)), Matcher(2, 2, Some(0)));
    RunStep(t, 2, s, 3, Matcher(2, 2, Some(0)), Matcher(2, 3, Some(0)));
    RunStep(t, 2, s, 4, Matcher(2, 3, Some(0)), Matcher(2, 4, Some(0)));
    RunStep(t, 2, s, 5, Matcher(2, 4, Some(0)), Matcher(2, 3, Some(0)));
    RunStep(t, 2, s, 6, Matcher(2, 3, Some(0)), Matcher(2, 2, Some(0)));
  }

  /** A first group of three or more bytes is not in s at all. */
  lemma MissedLater(t: seq<Byte>, g: nat, s: seq<Byte>)
    requires Warned(t, s) && 3 <= g <= 5
    ensures !Hit(t, g, s)
  {
    hide Run;
    if Hit(t, g, s) {
      HitIsMatch(t, g, s);
      FirstThree(t, g, s, Run(t, g, s).start.value);
    }
  }

  lemma FirstThree(t: seq<Byte>, g: nat, s: seq<Byte>, i: int)
    requires 3 <= g <= |t| && At(t[..g], s, i)
    ensures 0 <= i < |s| - 2 && s[i] == t[0] && s[i + 1] == t[1] && s[i + 2] == t[2]
  {
    assert forall k :: 0 <= k < 3 ==> s[i..i + g][k] == t[..g][k];
  }

  lemma StartOfRun(t: seq<Byte>, g: nat)
    requires 1 <= g <= |t|
    ensures Run(t, g, []) == Start(g)
  {
  }

  lemma RunStep(t: seq<Byte>, g: nat, s: seq<Byte>, k: nat, m: Matcher, n: Matcher)
    requires 1 <= g <= |t| && k < |s| && InRange(t, g, m)
    requires Run(t, g, s[..k]) == m && Feed(t, g, m, s[k], k) == n
    ensures Run(t, g, s[..k + 1]) == n
  {
    assert s[..k + 1][..k] == s[..k] && s[..k + 1][k] == s[k];
  }

  // ---------- reading a token ----------

  lemma {:induction false} ShortestExists(t: seq<Byte>, p: seq<Byte>)
    requires AnyMatch(t, p)
    ensures exists k :: ShortestMatch(t, p, k)
  {
    assert p[..|p|] == p;
    if j :| 0 <= j < |p| && AnyMatch(t, p[..j]) {
      ShortestExists(t, p[..j]);
      var k :| ShortestMatch(t, p[..j], k);
      assert forall i :: 0 <= i <= j ==> p[..j][..i] == p[..i];
      assert ShortestMatch(t, p, k);
    } else {
      assert ShortestMatch(t, p, |p|);
    }
  }

  lemma {:induction false} BestExists(t: seq<Byte>, w: seq<Byte>, h: nat)
    requires h <= |t| && exists g :: 1 <= g <= h && GapMatch(t, g, w)
    requires forall g :: h < g <= |t| ==> !GapMatch(t, g, w)
    ensures exists g :: BestGap(t, w, g)
    decreases h
  {
    if GapMatch(t, h, w) {
      assert BestGap(t, w, h);
    } else {
      BestExists(t, w, h - 1);
    }
  }

  /** Whatever holds the token can be read, and the outcome is unique. */
  lemma TokenReadExists(t: seq<Byte>, p: seq<Byte>)
    requires Findable(t) && AnyMatch(t, p)
    ensures exists k, r :: TokenRead(t, p, k, r)
  {
    ShortestExists(t, p);
    var k :| ShortestMatch(t, p, k);
    var w := p[..k];
    BestExists(t, w, |t|);
    var g :| BestGap(t, w, g);
    MatcherCorrect(t, g, w);
    var r := w[..Run(t, g, w).start.value];
    assert BeforeToken(t, w, r);
    assert TokenRead(t, p, k, r);
  }

  lemma TokenReadUnique(t: seq<Byte>, p: seq<Byte>, k: int, r: seq<Byte>, k': int, r': seq<Byte>)
    requires TokenRead(t, p, k, r) && TokenRead(t, p, k', r')
    ensures k == k' && r == r'
  {
  }

  lemma WholeTokenMatches(t: seq<Byte>, w: seq<Byte>, j: nat)
    requires |t| > 0 && At(t, w, j)
    ensures AnyMatch(t, w[..j + |t|])
  {
    var v := w[..j + |t|];
    assert v[j..j + |t|] == w[j..j + |t|];
    assert t[..|t|] == t && At(t, v, j) && At(t[|t|..], v, |v|);
    assert GapAt(t, |t|, v, j, |v|);
    assert GapMatch(t, |t|, v);
  }

  /** Rubbish r is read over when no proper prefix of r + token already holds a token. */
  lemma Resynchronises(t: seq<Byte>, r: seq<Byte>, rest: seq<Byte>)
    requires Findable(t) && |t| > 0
    requires forall j :: 0 <= j < |r + t| ==> !AnyMatch(t, (r + t)[..j])
    ensures TokenRead(t, r + t + rest, |r| + |t|, r)
  {
    var w, p := r + t, r + t + rest;
    assert t[..|t|] == t && t[|t|..] == [];
    assert At(t, w, |r|);
    assert At(t[|t|..], w, |w|);
    assert GapAt(t, |t|, w, |r|, |w|);
    assert p[..|w|] == w;
    assert forall j :: 0 <= j < |w| ==> p[..j] == w[..j];
    assert BestGap(t, w, |t|);
    forall j | 0 <= j < |r|
      ensures !At(t, w, j)
    {
      if At(t, w, j) {
        WholeTokenMatches(t, w, j);
      }
    }
    assert w[..|r|] == r;
    assert BeforeToken(t, w, r);
  }

  /** The returned prefix holds no token; reading again from the token returns
      nothing and consumes the same bytes. */
  lemma ReadAgainFromToken(t: seq<Byte>, p: seq<Byte>, k: int, r: seq<Byte>)
    requires TokenRead(t, p, k, r)
    ensures |r| <= k && r == p[..|r|] && !AnyMatch(t, r)
    ensures TokenRead(t, p[|r|..], k - |r|, [])
  {
    var w := p[..k];
    var g :| BestGap(t, w, g) && FirstAt(t[..g], w, |r|) && r == w[..|r|];
    assert r == p[..|r|];
    var v, p' := w[|r|..], p[|r|..];
    assert p'[..k - |r|] == v;
    MatchFromStart(t, g, w, |r|);
    forall h | 1 <= h <= |t| && GapMatch(t, h, v)
      ensures GapMatch(t, h, w)
    {
      MatchInWhole(t, h, w, |r|);
    }
    assert BestGap(t, v, g);
    SuffixAt(t[..g], w, |r|, |r|);
    assert BeforeToken(t, v, []);
    forall j | 0 <= j < k - |r|
      ensures !AnyMatch(t, p'[..j])
    {
      if AnyMatch(t, p'[..j]) {
        var h :| 1 <= h <= |t| && GapMatch(t, h, p'[..j]);
        assert p'[..j] == p[..|r| + j][|r|..];
        MatchInWhole(t, h, p[..|r| + j], |r|);
      }
    }
  }

  lemma MatchFromStart(t: seq<Byte>, g: nat, w: seq<Byte>, a: nat)
    requires 1 <= g <= |t| && GapMatch(t, g, w) && FirstAt(t[..g], w, a)
    ensures GapMatch(t, g, w[a..])
  {
    var i, j :| GapAt(t, g, w, i, j);
    SuffixAt(t[..g], w, a, a);
    SuffixAt(t[g..], w, a, j);
    assert GapAt(t, g, w[a..], 0, j - a);
  }

  lemma MatchInWhole(t: seq<Byte>, g: nat, w: seq<Byte>, a: nat)
    requires 1 <= g <= |t| && a <= |w| && GapMatch(t, g, w[a..])
    ensures GapMatch(t, g, w)
  {
    var i, j :| GapAt(t, g, w[a..], i, j);
    SuffixAt(t[..g], w, a, i + a);
    SuffixAt(t[g..], w, a, j + a);
    assert GapAt(t, g, w, i + a, j + a);
  }
}
