/**
  The multi-select state `selectedItems`: a list of chat ids that a tap or a
  long press toggles (`selectItems`), and the header chrome derived from it.
 */
module Selection {

  predicate NoDup(s: seq<string>) {
    forall i, j :: 0 <= i < j < |s| ==> s[i] != s[j]
  }

  /** The selection with every occurrence of `x` filtered out. */
  function Without(s: seq<string>, x: string): (r: seq<string>)
    ensures x !in r
    ensures forall y :: y != x ==> (y in r <==> y in s)
    ensures x !in s ==> r == s
    ensures NoDup(s) ==> NoDup(r)
    ensures NoDup(s) && x in s ==> |r| == |s| - 1
  {
    if s == [] then []
    else if s[0] == x then Without(s[1..], x)
    else
      var rest := Without(s[1..], x);
      assert NoDup(s) ==> s[0] !in s[1..] && NoDup(s[1..]) by {
        if NoDup(s) {
          forall k | 0 <= k < |s[1..]| ensures s[1..][k] != s[0] { assert s[1..][k] == s[k + 1]; }
        }
      }
      [s[0]] + rest
  }

  /** Filtering works piece by piece, so the ids that are kept keep their order. */
  lemma {:induction false} WithoutAppend(a: seq<string>, b: seq<string>, x: string)
    ensures Without(a + b, x) == Without(a, x) + Without(b, x)
  {
    if a == [] {
      assert a + b == b;
    } else {
      WithoutAppend(a[1..], b, x);
      WithoutAppendStep(a, b, x);
    }
  }

  lemma WithoutAppendStep(a: seq<string>, b: seq<string>, x: string)
    requires a != [] && Without(a[1..] + b, x) == Without(a[1..], x) + Without(b, x)
    ensures Without(a + b, x) == Without(a, x) + Without(b, x)
  {
    ConsSplit(a, b);
    WithoutCons(a[0], a[1..] + b, x);
    WithoutCons(a[0], a[1..], x);
  }

  lemma ConsSplit(a: seq<string>, b: seq<string>)
    requires a != []
    ensures a == [a[0]] + a[1..] && a + b == [a[0]] + (a[1..] + b)
  {
  }

  lemma WithoutCons(h: string, t: seq<string>, x: string)
    ensures Without([h] + t, x) == if h == x then Without(t, x) else [h] + Without(t, x)
  {
    var s := [h] + t;
    assert s[0] == h && s[1..] == t;
  }

  /** In a list without duplicates, filtering an id out closes the gap where it stood. */
  lemma WithoutAt(s: seq<string>, x: string, k: nat)
    requires NoDup(s) && k < |s| && s[k] == x
    ensures Without(s, x) == s[..k] + s[k + 1..]
  {
    var before, after := s[..k], s[k + 1..];
    OnlyAt(s, k);
    assert s == before + ([x] + after);
    WithoutAppend(before, [x] + after, x);
    WithoutCons(x, after, x);
  }

  /** In a list without duplicates, the id at position k occurs nowhere else. */
  lemma OnlyAt(s: seq<string>, k: nat)
    requires NoDup(s) && k < |s|
    ensures s[k] !in s[..k] && s[k] !in s[k + 1..]
  {
    var before, after := s[..k], s[k + 1..];
    forall j | 0 <= j < |before| ensures before[j] != s[k] { assert before[j] == s[j]; }
    forall j | 0 <= j < |after| ensures after[j] != s[k] { assert after[j] == s[k + 1 + j]; }
  }

  /** `selectItems`: drop the id when it is selected, append it otherwise. */
  function Toggled(s: seq<string>, x: string): (r: seq<string>)
    ensures x in r <==> x !in s
    ensures forall y :: y != x ==> (y in r <==> y in s)
    ensures x !in s ==> r == s + [x]
    ensures NoDup(s) ==> NoDup(r)
    ensures NoDup(s) ==> |r| == if x in s then |s| - 1 else |s| + 1
  {
    if x in s then Without(s, x) else s + [x]
  }

  /** Toggling an id twice gives back the same set of selected ids. */
  lemma ToggleTwiceSameMembers(s: seq<string>, x: string)
    ensures forall y :: y in Toggled(Toggled(s, x), x) <==> y in s
  {
  }

  /** An id that was not selected: toggling it twice restores the list exactly. */
  lemma ToggleTwiceRestores(s: seq<string>, x: string)
    requires x !in s
    ensures Toggled(Toggled(s, x), x) == s
  {
    WithoutLast(s, x);
  }

  lemma {:induction false} WithoutLast(s: seq<string>, x: string)
    requires x !in s
    ensures Without(s + [x], x) == s
  {
    if s != [] {
      assert (s + [x])[1..] == s[1..] + [x];
      WithoutLast(s[1..], x);
    }
  }

  /** A selected id toggled twice comes back at the end, behind the ids that stayed. */
  lemma ToggleTwiceMovesToEnd(s: seq<string>, x: string)
    requires x in s
    ensures Toggled(Toggled(s, x), x) == Without(s, x) + [x]
  {
  }

  /**
    A selected id that is not the last one comes back at the end: the two
    toggles restore the selection as a set but not its order.
   */
  lemma ToggleTwiceReorders()
    ensures Toggled(Toggled(["a", "b"], "a"), "a") == ["b", "a"]
  {
    assert "a" in ["a", "b"];
    assert Without(["a", "b"], "a") == ["b"] by {
      assert ["a", "b"][1..] == ["b"];
    }
  }

  /** What the navigation header shows. */
  datatype Chrome = DefaultChrome | SelectionChrome(count: nat)

  /** `updateNavigationOptions`: a count and a delete control, or the default header. */
  function HeaderFor(s: seq<string>): (r: Chrome)
    ensures r.SelectionChrome? <==> |s| > 0
    ensures r.SelectionChrome? ==> r.count == |s| && r.count > 0
  {
    if |s| > 0 then SelectionChrome(|s|) else DefaultChrome
  }

  /**
    From nothing selected: a long press on A selects [A], a tap on A then
    empties the selection again, and long presses on A and then B select
    [A, B] with a header count of 2.
   */
  lemma SelectionScenario(a: string, b: string)
    requires a != b
    ensures Toggled([], a) == [a] && HeaderFor([a]) == SelectionChrome(1)
    ensures Toggled(Toggled([], a), a) == [] && HeaderFor([]) == DefaultChrome
    ensures Toggled(Toggled([], a), b) == [a, b] && HeaderFor([a, b]) == SelectionChrome(2)
  {
    assert Toggled([], a) == [a];
    assert a in [a] && b !in [a];
    assert Without([a], a) == [] by { assert [a][1..] == []; }
    assert Toggled([a], b) == [a] + [b] == [a, b];
  }
}
