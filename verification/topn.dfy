/**
 `get_top_n` of `HW_2/main.py`: take the largest value, the smallest key
 holding it, record the pair and delete the key, `top_n` times over.
 */
module TopN {
  import opened Wrappers
  import opened Strings
  import opened Scores

  /** One `[key, value]` pair of the answer. */
  datatype Entry = Entry(key: Word, value: int)

  /** `max(merged_dict.values())`. */
  method MaxValue(m: Counts) returns (v: int)
    requires |m| > 0
    ensures exists k :: k in m && m[k] == v
    ensures forall k :: k in m ==> m[k] <= v
  {
    var first :| first in m;
    v := m[first];
    var left := m.Keys - {first};
    while left != {}
      invariant left <= m.Keys
      invariant first in m && m[first] <= v
      invariant exists k :: k in m && m[k] == v
      invariant forall k :: k in m && k !in left ==> m[k] <= v
      decreases left
    {
      var k :| k in left;
      if m[k] > v {
        v := m[k];
      }
      left := left - {k};
    }
  }

  /** `max_keys.sort()` then `max_keys[0]`: the least key in Python's string order. */
  method SmallestKey(keys: set<Word>) returns (k: Word)
    requires keys != {}
    ensures k in keys
    ensures forall j :: j in keys && j != k ==> StrLess(k, j)
  {
    k :| k in keys;
    var left := keys - {k};
    while left != {}
      invariant left <= keys && k in keys && k !in left
      invariant forall j :: j in keys && j !in left && j != k ==> StrLess(k, j)
      decreases left
    {
      var j :| j in left;
      if StrLess(j, k) {
        forall x | x in keys && x !in left && x != k
          ensures StrLess(j, x)
        {
          StrLessTransitive(j, k, x);
        }
        k := j;
      } else {
        StrLessTotal(j, k);
      }
      left := left - {j};
    }
  }

  /** The keys of the pairs already chosen. */
  function Chosen(top: seq<Entry>): set<Word>
  {
    set i | 0 <= i < |top| :: top[i].key
  }

  /** The pairs of `top` come from `m`, with distinct keys, values not
      increasing, and equal values in ascending key order. */
  ghost predicate OrderedFrom(m: Counts, top: seq<Entry>)
  {
    && (forall i :: 0 <= i < |top| ==> top[i].key in m && top[i].value == m[top[i].key])
    && (forall i, j :: 0 <= i < j < |top| ==> top[i].key != top[j].key)
    && (forall i, j :: 0 <= i < j < |top| ==> top[i].value >= top[j].value)
    && (forall i, j :: 0 <= i < j < |top| && top[i].value == top[j].value ==> StrLess(top[i].key, top[j].key))
  }

  /** `rest` is `m` without the chosen keys. */
  ghost predicate LeftOver(m: Counts, top: seq<Entry>, rest: Counts)
  {
    && rest.Keys == m.Keys - Chosen(top)
    && (forall k :: k in rest ==> rest[k] == m[k])
  }

  /** Every chosen pair beats every left-over entry: a larger or equal value,
      and on an equal value a smaller key. */
  ghost predicate Beats(top: seq<Entry>, rest: Counts)
  {
    && (forall i, k :: 0 <= i < |top| && k in rest ==> rest[k] <= top[i].value)
    && (forall i, k :: 0 <= i < |top| && k in rest && rest[k] == top[i].value ==> StrLess(top[i].key, k))
  }

  /** `top` was selected from `m` by largest value, then smallest key, and
      `rest` is what is left of `m`. */
  ghost predicate Selected(m: Counts, top: seq<Entry>, rest: Counts)
  {
    OrderedFrom(m, top) && LeftOver(m, top, rest) && Beats(top, rest)
  }

  /** The chosen keys after one more pair. */
  lemma ChosenAppend(top: seq<Entry>, e: Entry)
    ensures Chosen(top + [e]) == Chosen(top) + {e.key}
  {
    var top' := top + [e];
    assert forall i :: 0 <= i < |top| ==> top'[i] == top[i];
    assert top'[|top|] == e;
    assert forall x :: x in Chosen(top') ==> x in Chosen(top) || x == e.key;
    assert forall x :: x in Chosen(top) ==> x in Chosen(top');
  }

  /** Appending the best left-over entry keeps the answer ordered. */
  lemma OrderedStep(m: Counts, top: seq<Entry>, rest: Counts, key: Word, v: int)
    requires Selected(m, top, rest)
    requires key in rest && rest[key] == v
    ensures OrderedFrom(m, top + [Entry(key, v)])
  {
  }

  /** Removing the best left-over entry keeps every chosen pair ahead of the rest. */
  lemma BeatsStep(top: seq<Entry>, rest: Counts, key: Word, v: int)
    requires Beats(top, rest)
    requires key in rest && rest[key] == v
    requires forall k :: k in rest ==> rest[k] <= v
    requires forall k :: k in rest && rest[k] == v && k != key ==> StrLess(key, k)
    ensures Beats(top + [Entry(key, v)], rest - {key})
  {
  }

  /** One round of the loop keeps the selection invariant. */
  lemma SelectStep(m: Counts, top: seq<Entry>, rest: Counts, key: Word, v: int)
    requires Selected(m, top, rest)
    requires key in rest && rest[key] == v
    requires forall k :: k in rest ==> rest[k] <= v
    requires forall k :: k in rest && rest[k] == v && k != key ==> StrLess(key, k)
    ensures Selected(m, top + [Entry(key, v)], rest - {key})
  {
    OrderedStep(m, top, rest, key, v);
    BeatsStep(top, rest, key, v);
    ChosenAppend(top, Entry(key, v));
  }

  /** What `Selected` says, clause by clause. */
  lemma SelectedMeans(m: Counts, top: seq<Entry>, rest: Counts)
    requires Selected(m, top, rest)
    ensures forall i :: 0 <= i < |top| ==> top[i].key in m && top[i].value == m[top[i].key]
    ensures forall i, j :: 0 <= i < j < |top| ==> top[i].key != top[j].key
    ensures forall i, j :: 0 <= i < j < |top| ==> top[i].value >= top[j].value
    ensures forall i, j :: 0 <= i < j < |top| && top[i].value == top[j].value ==> StrLess(top[i].key, top[j].key)
    ensures rest.Keys == m.Keys - Chosen(top)
    ensures forall k :: k in rest ==> rest[k] == m[k]
    ensures forall i, k :: 0 <= i < |top| && k in rest ==> rest[k] <= top[i].value
    ensures forall i, k :: 0 <= i < |top| && k in rest && rest[k] == top[i].value ==> StrLess(top[i].key, k)
  {
  }

  /** One round of the loop of `get_top_n`: the largest value left and the
      smallest key holding it. */
  method SelectBest(rest: Counts) returns (key: Word, v: int)
    requires |rest| > 0
    ensures key in rest && rest[key] == v
    ensures forall k :: k in rest ==> rest[k] <= v
    ensures forall k :: k in rest && rest[k] == v && k != key ==> StrLess(key, k)
  {
    v := MaxValue(rest);
    var maxKeys := set k | k in rest && rest[k] == v;
    ghost var top :| top in rest && rest[top] == v;
    assert top in maxKeys;
    key := SmallestKey(maxKeys);
  }

  /** One round of the loop with its bookkeeping: the best pair appended,
      its key deleted. */
  method Round(m: Counts, top: seq<Entry>, rest: Counts) returns (top': seq<Entry>, rest': Counts)
    requires Selected(m, top, rest) && |rest| > 0
    ensures Selected(m, top', rest')
    ensures |top'| == |top| + 1 && |rest'| == |rest| - 1
  {
    var key, maxValue := SelectBest(rest);
    SelectStep(m, top, rest, key, maxValue);
    assert |rest.Keys - {key}| == |rest.Keys| - 1;
    top' := top + [Entry(key, maxValue)];
    rest' := rest - {key};
  }

  /** `get_top_n(merged_dict, top_n)`; `rest` is `merged_dict` after the
      deletions. There must be at least `top_n` keys, because `max` of an
      empty dict raises; a negative `top_n` selects nothing. */
  method GetTopN(m: Counts, topN: int) returns (top: seq<Entry>, rest: Counts)
    requires topN <= |m|
    ensures |top| == (if topN > 0 then topN else 0)
    ensures forall i :: 0 <= i < |top| ==> top[i].key in m && top[i].value == m[top[i].key]
    ensures forall i, j :: 0 <= i < j < |top| ==> top[i].key != top[j].key
    ensures forall i, j :: 0 <= i < j < |top| ==> top[i].value >= top[j].value
    ensures forall i, j :: 0 <= i < j < |top| && top[i].value == top[j].value ==> StrLess(top[i].key, top[j].key)
    ensures rest.Keys == m.Keys - Chosen(top)
    ensures forall k :: k in rest ==> rest[k] == m[k]
    ensures forall i, k :: 0 <= i < |top| && k in rest ==> rest[k] <= top[i].value
    ensures forall i, k :: 0 <= i < |top| && k in rest && rest[k] == top[i].value ==> StrLess(top[i].key, k)
  {
    top := [];
    rest := m;
    var n := 0;
    while n < topN
      invariant |top| == n && n <= (if topN > 0 then topN else 0) && |rest| == |m| - n
      invariant Selected(m, top, rest)
    {
      top, rest := Round(m, top, rest);
      n := n + 1;
    }
    SelectedMeans(m, top, rest);
  }

  /** The `ValueError` of `max()` on the empty values of a dict. */
  datatype TopNError = MaxOfEmpty

  /** `get_top_n(merged_dict, top_n)` on any `top_n`. When `top_n` exceeds
      the number of keys, the dict is empty after `|m|` rounds, the next
      `max` raises, and no answer is returned. Otherwise it answers what
      `GetTopN` selects. */
  method GetTopNOrError(m: Counts, topN: int) returns (r: Result<seq<Entry>, TopNError>)
    ensures r.Failure? <==> topN > |m|
    ensures r.Success? ==> |r.value| == (if topN > 0 then topN else 0)
    ensures r.Success? ==> Selected(m, r.value, m - Chosen(r.value))
  {
    if topN > |m| {
      return Failure(MaxOfEmpty);
    }
    var top, rest := GetTopN(m, topN);
    assert rest == m - Chosen(top);
    return Success(top);
  }

}
