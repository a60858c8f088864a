/** The token finder: matchers that change one field per byte, and the reader that drives them. */
module TokenFinder {
  import opened Bytes
  import opened TokenSpec

  /** Matches token[..gapStart], any gap, token[gapStart..]. */
  class FixedGapMatcher {
    const token: seq<Byte>
    const gapStart: nat
    var firstGroupIdx: nat
    var lastGroupIdx: nat
    var matchStart: Option<nat>
    ghost var fed: seq<Byte> // every byte handled since the reset

    ghost predicate Valid()
      reads this
    {
      1 <= gapStart <= |token| &&
      Matcher(firstGroupIdx, lastGroupIdx, matchStart) == Run(token, gapStart, fed)
    }

    constructor (token: seq<Byte>, gapStart: nat)
      requires 1 <= gapStart <= |token|
      ensures Valid() && fed == [] && this.token == token && this.gapStart == gapStart
    {
      this.token, this.gapStart := token, gapStart;
      firstGroupIdx, lastGroupIdx, matchStart := 0, gapStart, None;
      fed := [];
    }

    method Reset()
      requires 1 <= gapStart <= |token|
      modifies this
      ensures Valid() && fed == []
    {
      firstGroupIdx, lastGroupIdx, matchStart := 0, gapStart, None;
      fed := [];
    }

    predicate FirstGroupFound()
      reads this
    {
      firstGroupIdx >= gapStart
    }

    predicate FullMatch()
      reads this
    {
      FirstGroupFound() && lastGroupIdx >= |token|
    }

    function MaxPass(): int
      reads this
    {
      firstGroupIdx + lastGroupIdx - gapStart
    }

    /** Handles s, the bytes that follow the alreadyHandled ones. */
    method Find(s: seq<Byte>, alreadyHandled: nat)
      requires Valid() && alreadyHandled == |fed|
      modifies this
      ensures Valid() && fed == old(fed) + s
      ensures FullMatch() <==> Hit(token, gapStart, fed)
      ensures Faultless(token, gapStart) ==> (FullMatch() <==> GapMatch(token, gapStart, fed))
      ensures Faultless(token, gapStart) && FullMatch() ==>
                matchStart.Some? && FirstAt(token[..gapStart], fed, matchStart.value)
    {
      for idx := 0 to |s|
        invariant Valid() && fed == old(fed) + s[..idx]
      {
        ghost var before := fed;
        UpdateLast(s[idx]);
        UpdateFirst(s[idx], alreadyHandled + idx);
        fed := fed + [s[idx]];
        assert fed[..|fed| - 1] == before;
      }
      if Faultless(token, gapStart) {
        MatcherCorrect(token, gapStart, fed);
      }
    }

    ghost function Fields(): Matcher
      reads this
    {
      Matcher(firstGroupIdx, lastGroupIdx, matchStart)
    }

    method UpdateLast(c: Byte)
      requires InRange(token, gapStart, Fields())
      modifies this`lastGroupIdx
      ensures Fields() == AfterLast(token, gapStart, old(Fields()), c)
    {
      if FirstGroupFound() && !FullMatch() {
        if token[lastGroupIdx] == c {
          lastGroupIdx := lastGroupIdx + 1;
        } else {
          lastGroupIdx := gapStart + if token[gapStart] == c then 1 else 0;
        }
      }
    }

    method UpdateFirst(c: Byte, pos: nat)
      requires InRange(token, gapStart, Fields())
      modifies this`firstGroupIdx, this`matchStart
      ensures Fields() == AfterFirst(token, gapStart, old(Fields()), c, pos)
      decreases firstGroupIdx
    {
      if !FirstGroupFound() {
        if token[firstGroupIdx] == c {
          firstGroupIdx := firstGroupIdx + 1;
          if matchStart == None {
            matchStart := Some(pos);
          }
        } else {
          var firstGroupIdxOld := firstGroupIdx;
          firstGroupIdx := 0;
          matchStart := None;
          if firstGroupIdxOld > 0 {
            UpdateFirst(c, pos);
          }
        }
      }
    }
  }

  /** Matches the token with a single gap anywhere: one matcher for each gap position. */
  class SingleGapMatcher {
    const token: seq<Byte>
    const matchers: seq<FixedGapMatcher>
    ghost var fed: seq<Byte>

    ghost predicate Sound()
      reads this, matchers
    {
      Wired() && forall i :: 0 <= i < |matchers| ==> matchers[i].Valid()
    }

    ghost predicate Wired() {
      |token| > 0 && |matchers| == |token| &&
      (forall i, j :: 0 <= i < j < |matchers| ==> matchers[i] != matchers[j]) &&
      (forall i :: 0 <= i < |matchers| ==> matchers[i].token == token && matchers[i].gapStart == i + 1)
    }

    /** No match yet, and every matcher has seen the stream. */
    ghost predicate Searching()
      reads this, matchers
    {
      Sound() && !Detected(token, fed) && forall i :: 0 <= i < |matchers| ==> matchers[i].fed == fed
    }

    /** The token is found. The matchers with an earlier gap may lag behind. */
    ghost predicate Found()
      reads this, matchers
    {
      Sound() && exists i :: FoundAt(i)
    }

    ghost predicate FoundAt(i: int)
      requires Sound()
      reads this, matchers
    {
      0 <= i < |matchers| && LastHit(token, fed, i + 1) && matchers[i].fed == fed && matchers[i].FullMatch() &&
      forall j :: i < j < |matchers| ==> !matchers[j].FullMatch()
    }

    constructor (token: seq<Byte>)
      requires |token| > 0
      ensures Searching() && fed == [] && this.token == token && fresh(matchers)
    {
      var ms: seq<FixedGapMatcher> := [];
      for g := 1 to |token| + 1
        invariant |ms| == g - 1 && fresh(ms)
        invariant forall i, j :: 0 <= i < j < |ms| ==> ms[i] != ms[j]
        invariant forall i :: 0 <= i < |ms| ==>
                    ms[i].token == token && ms[i].gapStart == i + 1 && ms[i].Valid() && ms[i].fed == []
      {
        var m := new FixedGapMatcher(token, g);
        ms := ms + [m];
      }
      this.token, matchers, fed := token, ms, [];
    }

    method Reset()
      requires Wired()
      modifies this, matchers
      ensures Searching() && fed == []
    {
      for i := 0 to |matchers|
        invariant forall j :: 0 <= j < i ==> matchers[j].Valid() && matchers[j].fed == []
      {
        matchers[i].Reset();
      }
      fed := [];
    }

    method Find(s: seq<Byte>, alreadyHandled: nat)
      requires Searching() && alreadyHandled == |fed|
      modifies this, matchers
      ensures fed == old(fed) + s
      ensures if Detected(token, fed) then Found() else Searching()
      ensures (Found() ==> AnyMatch(token, fed)) && (Findable(token) && Searching() ==> !AnyMatch(token, fed))
    {
      var hit := FindEach(s, alreadyHandled, fed + s);
      fed := fed + s;
      if hit >= 0 {
        MatchAt(hit);
      } else {
        NoMatch();
      }
      DetectedExactly(token, fed);
    }

    /** Feeds s to the matchers from the latest gap to the earliest, up to the first full match. */
    method FindEach(s: seq<Byte>, alreadyHandled: nat, ghost whole: seq<Byte>) returns (hit: int)
      requires Sound() && alreadyHandled == |fed| && whole == fed + s
      requires forall i :: 0 <= i < |matchers| ==> matchers[i].fed == fed
      modifies matchers
      ensures Sound() && -1 <= hit < |matchers|
      ensures forall j :: Max(hit, 0) <= j < |matchers| ==> matchers[j].fed == whole
      ensures forall j :: hit < j < |matchers| && 0 <= j ==> !matchers[j].FullMatch()
      ensures hit >= 0 ==> matchers[hit].FullMatch()
    {
      hide Run;
      hit := |matchers|;
      while hit > 0
        invariant 0 <= hit <= |matchers| && Sound()
        invariant forall j :: 0 <= j < hit ==> matchers[j].fed == fed
        invariant forall j :: hit <= j < |matchers| ==> matchers[j].fed == whole
        invariant forall j :: hit <= j < |matchers| ==> !matchers[j].FullMatch()
      {
        hit := hit - 1;
        matchers[hit].Find(s, alreadyHandled);
        if matchers[hit].FullMatch() {
          return;
        }
      }
      hit := -1;
    }

    lemma MatchAt(i: int)
      requires Sound() && 0 <= i < |matchers| && matchers[i].FullMatch()
      requires forall j :: i <= j < |matchers| ==> matchers[j].fed == fed
      requires forall j :: i < j < |matchers| ==> !matchers[j].FullMatch()
      ensures Detected(token, fed) && FoundAt(i)
    {
      hide Run;
      assert Hit(token, i + 1, fed);
      forall g | i + 1 < g <= |token|
        ensures !Hit(token, g, fed)
      {
        assert matchers[g - 1].fed == fed && !matchers[g - 1].FullMatch();
      }
    }

    lemma NoMatch()
      requires Sound()
      requires forall j :: 0 <= j < |matchers| ==> matchers[j].fed == fed && !matchers[j].FullMatch()
      ensures !Detected(token, fed)
    {
      hide Run;
      forall g | 1 <= g <= |token|
        ensures !Hit(token, g, fed)
      {
        assert matchers[g - 1].fed == fed && !matchers[g - 1].FullMatch();
      }
    }

    /** The most token bytes that any matcher has passed. */
    method MaxPass() returns (n: nat)
      requires Searching() || Found()
      ensures Searching() ==> n == TokenSpec.MaxPass(token, fed) < |token|
      ensures Found() ==> n == |token|
    {
      hide Run;
      n := matchers[0].MaxPass();
      var best := 0;
      for h := 1 to |matchers|
        invariant 0 <= best < |matchers| && matchers[best].MaxPass() == n
        invariant forall j :: 0 <= j < h ==> matchers[j].MaxPass() <= n
      {
        if matchers[h].MaxPass() > n {
          n, best := matchers[h].MaxPass(), h;
        }
      }
      BestPass(n, best);
    }

    lemma BestPass(n: int, best: int)
      requires Searching() || Found()
      requires 0 <= best < |matchers| && matchers[best].MaxPass() == n
      requires forall j :: 0 <= j < |matchers| ==> matchers[j].MaxPass() <= n
      ensures Searching() ==> n == TokenSpec.MaxPass(token, fed) < |token|
      ensures Found() ==> n == |token|
    {
      hide Run;
      if Searching() {
        forall g | 1 <= g <= |token|
          ensures Pass(token, g, fed) <= n
        {
          assert matchers[g - 1].fed == fed && matchers[g - 1].MaxPass() <= n;
        }
        assert Pass(token, best + 1, fed) == n;
        MaxPassFull(token, fed);
      } else {
        var i :| FoundAt(i);
        assert matchers[i].MaxPass() <= n;
      }
    }

    /** Where the match of the latest possible gap starts. */
    method MatchStart() returns (start: nat)
      requires Found()
      ensures exists g :: LastHit(token, fed, g) && At(token[..g], fed, start)
      ensures Findable(token) ==> exists g :: BestGap(token, fed, g) && FirstAt(token[..g], fed, start)
    {
      for i := |matchers| downto 0
        invariant forall j :: i <= j < |matchers| ==> !matchers[j].FullMatch()
      {
        if matchers[i].FullMatch() {
          assert FoundAt(i);
          StartFound(i);
          return matchers[i].matchStart.value;
        }
      }
      assert false;
    }

    lemma StartFound(i: nat)
      requires Sound() && FoundAt(i)
      ensures var start := matchers[i].matchStart;
              start.Some? && At(token[..i + 1], fed, start.value) &&
              (Findable(token) ==> BestGap(token, fed, i + 1) && FirstAt(token[..i + 1], fed, start.value))
    {
      hide Run;
      HitIsMatch(token, i + 1, fed);
      DetectedExactly(token, fed);
      if Findable(token) {
        MatcherCorrect(token, i + 1, fed);
      }
    }
  }

  /** Reads blocks until they hold the token. The reading itself is left to the
      caller, which asks for Remaining() bytes and passes them to Accept(). */
  class TokenReader {
    const token: seq<Byte>
    const matcher: SingleGapMatcher
    var io: seq<Byte>
    var remaining: nat

    ghost const Repr: set<object>

    ghost predicate Wired() {
      matcher.token == token && matcher.Wired() &&
      Repr == {this, matcher} + (set m | m in matcher.matchers)
    }

    ghost predicate Valid()
      reads this, matcher, matcher.matchers
    {
      Wired() && matcher.fed == io &&
      if Detected(token, io) then matcher.Found() && remaining == 0
      else matcher.Searching() && remaining == |token| - MaxPass(token, io) && remaining > 0
    }

    constructor (token: seq<Byte>)
      requires |token| > 0
      ensures Wired() && this.token == token && fresh(Repr)
    {
      var m := new SingleGapMatcher(token);
      this.token, matcher := token, m;
      io, remaining := [], 0;
      Repr := {this, m} + (set x | x in m.matchers);
    }

    method Reset()
      requires Wired()
      modifies Repr
      ensures Valid() && io == [] && remaining > 0 && !AnyMatch(token, io)
    {
      io := [];
      matcher.Reset();
      remaining := |token|;
      assert forall g :: 1 <= g <= |token| ==> Pass(token, g, []) == 0;
      MaxPassFull(token, []);
    }

    /** One round of the loop of read_until_token. */
    method Accept(s: seq<Byte>)
      requires Valid() && remaining > 0
      modifies Repr
      ensures Valid() && io == old(io) + s && (remaining == 0 <==> Detected(token, io))
      ensures (remaining == 0 ==> AnyMatch(token, io)) && (Findable(token) && AnyMatch(token, io) ==> remaining == 0)
    {
      hide Run, Hit, AnyMatch, Detected, Findable, TokenSpec.MaxPass, SingleGapMatcher.Searching,
           SingleGapMatcher.Found;
      var alreadyHandled := |io|;
      io := io + s;
      matcher.Find(s, alreadyHandled);
      var n := matcher.MaxPass();
      remaining := |token| - n;
    }

    method Prefix() returns (r: seq<Byte>)
      requires Valid() && remaining == 0
      ensures r <= io && exists g :: LastHit(token, io, g) && At(token[..g], io, |r|)
      ensures Findable(token) ==> BeforeToken(token, io, r)
    {
      hide LastHit, BestGap, FirstAt;
      var start := matcher.MatchStart();
      r := io[..start];
    }
  }
}
