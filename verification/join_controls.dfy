/**
 The separator interleaving of `DialogExtensions.JoinControls`: the items in order,
 with one separator between each adjacent pair and none before the first or after
 the last. A null item sequence is `None`.
 */
module DialogExtensions {
  import opened Options

  /** `SelectMany(item => new[] { item, separator })`: every item followed by one separator. */
  function WithSeparators<T>(items: seq<T>, separator: T): (r: seq<T>)
    ensures |r| == 2 * |items|
  {
    if |items| == 0 then [] else [items[0], separator] + WithSeparators(items[1..], separator)
  }

  /** The items, in order, with `separator` between every two adjacent items. */
  function JoinControls<T>(items: Option<seq<T>>, separator: T): (r: seq<T>)
    ensures items.None? ==> r == []
    ensures items.Some? && |items.value| == 0 ==> r == []
    ensures items.Some? && |items.value| >= 1 ==> |r| == 2 * |items.value| - 1
  {
    if items.None? || |items.value| < 1 then []
    else
      var xs := items.value;
      WithSeparators(xs[..|xs| - 1], separator) + [xs[|xs| - 1]]
  }

  /** Reference definition: `r` places item k at 2k and the separator at every odd position. */
  ghost predicate Interspersed<T>(items: seq<T>, separator: T, r: seq<T>)
    requires |items| >= 1
  {
    && |r| == 2 * |items| - 1
    && (forall k :: 0 <= k < |items| ==> r[2 * k] == items[k])
    && (forall j :: 0 <= j < |r| && j % 2 == 1 ==> r[j] == separator)
  }

  /** The elements at even positions 0, 2, 4, ... of `s`. */
  function EvenPositions<T>(s: seq<T>): (r: seq<T>)
    ensures |r| == (|s| + 1) / 2
    ensures forall k :: 0 <= k < |r| ==> r[k] == s[2 * k]
    decreases |s|
  {
    if |s| == 0 then []
    else if |s| == 1 then [s[0]]
    else [s[0]] + EvenPositions(s[2..])
  }

  lemma {:induction false} WithSeparatorsAt<T>(items: seq<T>, separator: T)
    ensures forall k :: 0 <= k < |items| ==>
      WithSeparators(items, separator)[2 * k] == items[k] &&
      WithSeparators(items, separator)[2 * k + 1] == separator
    decreases |items|
  {
    if |items| > 0 {
      var rest := WithSeparators(items[1..], separator);
      WithSeparatorsAt(items[1..], separator);
      assert WithSeparators(items, separator) == [items[0], separator] + rest;
      forall k | 1 <= k < |items|
        ensures WithSeparators(items, separator)[2 * k] == items[k]
        ensures WithSeparators(items, separator)[2 * k + 1] == separator
      {
        assert rest[2 * (k - 1)] == items[1..][k - 1];
        assert rest[2 * (k - 1) + 1] == separator;
      }
    }
  }

  /** Every item sits at twice its index, in the original order, and every odd position is the separator. */
  lemma JoinControlsPositions<T>(items: seq<T>, separator: T)
    requires |items| >= 1
    ensures Interspersed(items, separator, JoinControls(Some(items), separator))
  {
    var n := |items|;
    var r := JoinControls(Some(items), separator);
    var pre := WithSeparators(items[..n - 1], separator);
    assert r == pre + [items[n - 1]];
    WithSeparatorsAt(items[..n - 1], separator);
    forall k | 0 <= k < n
      ensures r[2 * k] == items[k]
    {
      if k < n - 1 {
        assert r[2 * k] == pre[2 * k];
      }
    }
    forall j | 0 <= j < |r| && j % 2 == 1
      ensures r[j] == separator
    {
      var k := (j - 1) / 2;
      assert j == 2 * k + 1;
      assert r[j] == pre[2 * k + 1];
    }
  }

  /** No separator leads or trails: the output starts with the first item and ends with the last. */
  lemma JoinControlsEnds<T>(items: seq<T>, separator: T)
    requires |items| >= 1
    ensures JoinControls(Some(items), separator)[0] == items[0]
    ensures JoinControls(Some(items), separator)[2 * |items| - 2] == items[|items| - 1]
  {
  }

  /** A single item is returned alone, with no separator. */
  lemma JoinControlsSingle<T>(item: T, separator: T)
    ensures JoinControls(Some([item]), separator) == [item]
  {
  }

  /** Round trip: the even positions of the output are exactly the input items. */
  lemma JoinControlsRoundTrip<T>(items: seq<T>, separator: T)
    ensures EvenPositions(JoinControls(Some(items), separator)) == items
  {
    if |items| >= 1 {
      JoinControlsPositions(items, separator);
    }
  }

  /** The reference definition pins the output down: `r` is interspersed exactly when it is the join. */
  lemma JoinControlsCharacterized<T>(items: seq<T>, separator: T, r: seq<T>)
    requires |items| >= 1
    ensures Interspersed(items, separator, r) <==> r == JoinControls(Some(items), separator)
  {
    var j := JoinControls(Some(items), separator);
    JoinControlsPositions(items, separator);
    if Interspersed(items, separator, r) {
      forall i | 0 <= i < |r|
        ensures r[i] == j[i]
      {
        if i % 2 == 0 {
          assert r[2 * (i / 2)] == j[2 * (i / 2)];
        }
      }
    }
  }
}
