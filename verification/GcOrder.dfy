/** The order in which tracked objects are kept, as a function of the history of
    TRACK and UNTRACK events. */
module GcOrder {

  datatype Event<T> = Track(g: T) | Untrack(g: T)

  /** The sequence without an object. */
  ghost function Without<T>(s: seq<T>, g: T): seq<T> {
    if |s| == 0 then []
    else Without(s[..|s| - 1], g) + (if s[|s| - 1] == g then [] else [s[|s| - 1]])
  }

  ghost predicate Distinct<T>(s: seq<T>) {
    forall i, j :: 0 <= i < j < |s| ==> s[i] != s[j]
  }

  /** What one event does to the tracked objects. */
  ghost function Apply<T>(e: Event<T>, s: seq<T>): seq<T> {
    match e
    case Track(g) => s + [g]
    case Untrack(g) => Without(s, g)
  }

  /** TRACK only untracked objects, UNTRACK only tracked ones. */
  ghost predicate Applicable<T>(e: Event<T>, s: seq<T>) {
    match e
    case Track(g) => g !in s
    case Untrack(g) => g in s
  }

  /** The tracked objects after a history that starts with none. */
  ghost function Replay<T>(history: seq<Event<T>>): seq<T> {
    if |history| == 0 then []
    else Apply(history[|history| - 1], Replay(history[..|history| - 1]))
  }

  ghost predicate Legal<T>(history: seq<Event<T>>) {
    |history| == 0 ||
    (var m := |history| - 1; Legal(history[..m]) && Applicable(history[m], Replay(history[..m])))
  }

  // ----- removing one object -----

  lemma WithoutSnoc<T>(s: seq<T>, x: T, g: T)
    ensures Without(s + [x], g) == Without(s, g) + (if x == g then [] else [x])
  {
    assert (s + [x])[..|s|] == s;
  }

  lemma {:induction false} WithoutAbsent<T>(s: seq<T>, g: T)
    requires g !in s
    ensures Without(s, g) == s
  {
    if |s| > 0 {
      WithoutAbsent(s[..|s| - 1], g);
      assert s == s[..|s| - 1] + [s[|s| - 1]];
    }
  }

  /** Of a sequence that holds the object once, exactly that place is cut out. */
  lemma {:induction false} WithoutAt<T>(s: seq<T>, k: nat)
    requires k < |s| && Distinct(s)
    ensures Without(s, s[k]) == s[..k] + s[k + 1..]
  {
    var m := |s| - 1;
    if k == m {
      WithoutAbsent(s[..m], s[k]);
      assert s[k + 1..] == [];
    } else {
      WithoutAt(s[..m], k);
      assert s[..m][..k] == s[..k];
      assert s[k + 1..] == s[..m][k + 1..] + [s[m]];
    }
  }

  lemma {:induction false} WithoutMembers<T>(s: seq<T>, g: T)
    ensures forall x :: x in Without(s, g) <==> x in s && x != g
  {
    if |s| > 0 {
      var m := |s| - 1;
      WithoutMembers(s[..m], g);
      assert s == s[..m] + [s[m]];
    }
  }

  lemma {:induction false} WithoutDistinct<T>(s: seq<T>, g: T)
    requires Distinct(s)
    ensures Distinct(Without(s, g))
  {
    if |s| > 0 {
      var m := |s| - 1;
      WithoutDistinct(s[..m], g);
      WithoutMembers(s[..m], g);
      assert s[m] !in s[..m];
    }
  }

  /** The same with a further element in front, as a circle has its sentinel. */
  lemma WithoutBehind<T>(x: T, s: seq<T>, k: nat)
    requires k < |s| && Distinct(s)
    ensures ([x] + s)[..k + 1] + ([x] + s)[k + 2..] == [x] + Without(s, s[k])
  {
    WithoutAt(s, k);
    CutBehind(x, s, k);
  }

  lemma CutBehind<T>(x: T, s: seq<T>, k: nat)
    requires k < |s|
    ensures ([x] + s)[..k + 1] + ([x] + s)[k + 2..] == [x] + (s[..k] + s[k + 1..])
  {
  }

  lemma DistinctBehind<T>(x: T, s: seq<T>)
    requires Distinct(s) && x !in s
    ensures Distinct([x] + s)
  {
    var c := [x] + s;
    assert forall i :: 1 <= i < |c| ==> c[i] == s[i - 1];
  }

  // ----- histories -----

  /** No object is ever in the ring twice. */
  lemma {:induction false} ReplayDistinct<T>(history: seq<Event<T>>)
    requires Legal(history)
    ensures Distinct(Replay(history))
  {
    if |history| > 0 {
      var m := |history| - 1;
      ReplayDistinct(history[..m]);
      if history[m].Untrack? {
        WithoutDistinct(Replay(history[..m]), history[m].g);
      }
    }
  }

  lemma {:induction false} LegalPrefix<T>(history: seq<Event<T>>, n: nat)
    requires Legal(history) && n <= |history|
    ensures Legal(history[..n])
    ensures n < |history| ==> Applicable(history[n], Replay(history[..n]))
    ensures n < |history| ==> Replay(history[..n + 1]) == Apply(history[n], Replay(history[..n]))
    decreases |history|
  {
    if n < |history| {
      assert history[..n + 1][..n] == history[..n];
    }
    if n == |history| {
      assert history[..n] == history;
    } else if n < |history| - 1 {
      var m := |history| - 1;
      LegalPrefix(history[..m], n);
      assert history[..m][..n] == history[..n];
    }
  }

  /** Event `i` put an object into the ring that no later event took out. */
  ghost predicate Survives<T>(history: seq<Event<T>>, i: nat)
    requires i < |history|
  {
    history[i].Track? && forall j :: i < j < |history| ==> history[j] != Untrack(history[i].g)
  }

  /** The objects of the surviving TRACK events among the first `n`, in the order of
      these events. */
  ghost function Survivors<T>(history: seq<Event<T>>, n: nat): seq<T>
    requires n <= |history|
  {
    if n == 0 then []
    else Survivors(history, n - 1) + (if Survives(history, n - 1) then [history[n - 1].g] else [])
  }

  lemma SurvivesExtended<T>(history: seq<Event<T>>, e: Event<T>, i: nat)
    requires i < |history|
    ensures (history + [e])[i] == history[i]
    ensures Survives(history + [e], i) <==> Survives(history, i) && e != Untrack(history[i].g)
  {
    var longer := history + [e];
    assert longer[|history|] == e;
    assert forall j :: i <= j < |history| ==> longer[j] == history[j];
  }

  /** A further TRACK leaves the earlier survivors alone. */
  lemma {:induction false} SurvivorsTracked<T>(history: seq<Event<T>>, g: T, n: nat)
    requires n <= |history|
    ensures Survivors(history + [Track(g)], n) == Survivors(history, n)
  {
    if n > 0 {
      SurvivorsTracked(history, g, n - 1);
      SurvivesExtended(history, Track(g), n - 1);
    }
  }

  /** A further UNTRACK ends the survival of its object and no other. */
  lemma {:induction false} SurvivorsUntracked<T>(history: seq<Event<T>>, g: T, n: nat)
    requires n <= |history|
    ensures Survivors(history + [Untrack(g)], n) == Without(Survivors(history, n), g)
  {
    if n > 0 {
      var s, longer := Survivors(history, n - 1), Survivors(history + [Untrack(g)], n - 1);
      SurvivorsUntracked(history, g, n - 1);
      SurvivesExtended(history, Untrack(g), n - 1);
      if Survives(history, n - 1) {
        WithoutSnoc(s, history[n - 1].g, g);
      } else {
        assert Survivors(history, n) == s && Survivors(history + [Untrack(g)], n) == longer;
      }
    }
  }

  /** The ring holds exactly the objects of the TRACK events that no later UNTRACK
      took back, in the order in which they were tracked. */
  lemma {:induction false} ReplayIsSurvivors<T>(history: seq<Event<T>>)
    ensures Replay(history) == Survivors(history, |history|)
  {
    if |history| > 0 {
      var m := |history| - 1;
      var e := history[m];
      ReplayIsSurvivors(history[..m]);
      if e.Track? {
        SurvivorsTracked(history[..m], e.g, m);
      } else {
        SurvivorsUntracked(history[..m], e.g, m);
      }
      assert history == history[..m] + [e];
    }
  }

  /** UNTRACK right after TRACK restores the ring. */
  lemma TrackUntrackCancel<T>(s: seq<T>, g: T)
    requires g !in s
    ensures Apply(Untrack(g), Apply(Track(g), s)) == s
  {
    WithoutAbsent(s, g);
    assert (s + [g])[..|s|] == s;
  }
}
