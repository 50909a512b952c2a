/**
 Word-score aggregation of `HW_2/main.py`: every title word of a question
 post that is not a stop word scores the post's score, scores are summed per
 creation year, and a request sums the years of its range.
 */
module Scores {

  type Word = string

  /** word -> summed score */
  type Counts = map<Word, int>

  /** `d.get(k, 0)`. */
  function Get(m: Counts, k: Word): int
  {
    if k in m then m[k] else 0
  }

  /** `get_count_values_words`: the words that are not stop words, each
      scored with the post's score. */
  function CountValuesWords(words: set<Word>, score: int, stopList: set<Word>): (freq: Counts)
    ensures forall w :: w in freq <==> w in words && w !in stopList
    ensures forall w :: w in freq ==> freq[w] == score
  {
    map w | w in words && w !in stopList :: score
  }

  /** `{k: a.get(k, 0) + b.get(k, 0) for k in set(a) | set(b)}`. */
  function SumMerge(a: Counts, b: Counts): (r: Counts)
    ensures r.Keys == a.Keys + b.Keys
    ensures forall k :: Get(r, k) == Get(a, k) + Get(b, k)
  {
    map k | k in a.Keys + b.Keys :: Get(a, k) + Get(b, k)
  }

  /** Merging does not depend on the order of its arguments. */
  lemma SumMergeCommutes(a: Counts, b: Counts)
    ensures SumMerge(a, b) == SumMerge(b, a)
  {
  }

  /** Merging is associative, so folding years left to right is a plain sum. */
  lemma SumMergeAssociates(a: Counts, b: Counts, c: Counts)
    ensures SumMerge(SumMerge(a, b), c) == SumMerge(a, SumMerge(b, c))
  {
  }

  /** The empty dict is the unit of merging. */
  lemma SumMergeEmpty(a: Counts)
    ensures SumMerge(a, map[]) == a
  {
  }

  /** The fields of one row of the posts file that the aggregation reads;
      `titleWords` is the set of lower-cased `\w+` words of the title. */
  datatype Post = Post(postTypeId: string, year: int, titleWords: set<Word>, score: int)

  /** A post is a question when its `PostTypeId` is `"1"`; others are skipped. */
  predicate IsQuestion(p: Post)
  {
    p.postTypeId == "1"
  }

  /** year -> counts of that year */
  type YearTable = map<int, Counts>

  /** `cons_dict[year]` of a `defaultdict(dict)`: a missing year is empty. */
  function YearCounts(t: YearTable, year: int): Counts
  {
    if year in t then t[year] else map[]
  }

  /** The loop over the posts file: each question post's word scores are
      merged into the counts of its year. */
  function Accumulate(posts: seq<Post>, stopList: set<Word>): YearTable
    decreases |posts|
  {
    if |posts| == 0 then map[]
    else
      var t := Accumulate(posts[..|posts| - 1], stopList);
      var p := posts[|posts| - 1];
      if !IsQuestion(p) then t
      else t[p.year := SumMerge(YearCounts(t, p.year), CountValuesWords(p.titleWords, p.score, stopList))]
  }

  /** Post `p` scores `w` in `year`. */
  predicate Contributes(p: Post, stopList: set<Word>, year: int, w: Word)
  {
    IsQuestion(p) && p.year == year && w in p.titleWords && w !in stopList
  }

  /** The total score word `w` receives in `year`: the sum of the scores of
      the question posts of that year whose title has `w`, stop words excluded. */
  function TotalScore(posts: seq<Post>, stopList: set<Word>, year: int, w: Word): int
    decreases |posts|
  {
    if |posts| == 0 then 0
    else (if Contributes(posts[0], stopList, year, w) then posts[0].score else 0)
         + TotalScore(posts[1..], stopList, year, w)
  }

  /** Appending one post adds its contribution to the total. */
  lemma {:induction false} TotalScoreAppend(posts: seq<Post>, p: Post, stopList: set<Word>, year: int, w: Word)
    ensures TotalScore(posts + [p], stopList, year, w)
         == TotalScore(posts, stopList, year, w) + (if Contributes(p, stopList, year, w) then p.score else 0)
    decreases |posts|
  {
    if |posts| > 0 {
      assert (posts + [p])[1..] == posts[1..] + [p];
      TotalScoreAppend(posts[1..], p, stopList, year, w);
    } else {
      assert posts + [p] == [p];
    }
  }

  /** After the posts loop, the count of `w` in `year` is the total score of
      `w` over the question posts of that year. */
  lemma {:induction false} AccumulateSumsScores(posts: seq<Post>, stopList: set<Word>, year: int, w: Word)
    ensures Get(YearCounts(Accumulate(posts, stopList), year), w) == TotalScore(posts, stopList, year, w)
    decreases |posts|
  {
    if |posts| > 0 {
      var init := posts[..|posts| - 1];
      var p := posts[|posts| - 1];
      AccumulateSumsScores(init, stopList, year, w);
      TotalScoreAppend(init, p, stopList, year, w);
      assert init + [p] == posts;
    }
  }

  /** Some question post of `year` has `w` in its title and `w` is not a stop word. */
  ghost predicate Scored(posts: seq<Post>, stopList: set<Word>, year: int, w: Word)
  {
    exists i :: 0 <= i < |posts| && Contributes(posts[i], stopList, year, w)
  }

  /** After the posts loop, `w` is a key of `year` exactly when some question
      post of that year has it in its title and it is not a stop word. */
  lemma {:induction false} AccumulateKeys(posts: seq<Post>, stopList: set<Word>, year: int, w: Word)
    ensures w in YearCounts(Accumulate(posts, stopList), year) <==> Scored(posts, stopList, year, w)
    decreases |posts|
  {
    if |posts| > 0 {
      var last := |posts| - 1;
      var init := posts[..last];
      AccumulateKeys(init, stopList, year, w);
      assert forall i :: 0 <= i < last ==> init[i] == posts[i];
      if Scored(posts, stopList, year, w) && !Contributes(posts[last], stopList, year, w) {
        var i :| 0 <= i < |posts| && Contributes(posts[i], stopList, year, w);
        assert Contributes(init[i], stopList, year, w);
      }
      if Scored(init, stopList, year, w) {
        var i :| 0 <= i < |init| && Contributes(init[i], stopList, year, w);
        assert Contributes(posts[i], stopList, year, w);
      }
    }
  }

  /** A request's counts: `cons_dict[init]`, then the years `init + 1 ..
      final` merged in one by one; nothing is merged when `final <= init`. */
  function RangeMerge(t: YearTable, init: int, final: int): Counts
    decreases final - init
  {
    if final <= init then YearCounts(t, init)
    else SumMerge(RangeMerge(t, init, final - 1), YearCounts(t, final))
  }

  /** The sum of the counts of `w` over the years `lo ..= hi`. */
  function YearSum(t: YearTable, w: Word, lo: int, hi: int): int
    decreases hi - lo
  {
    if hi < lo then 0 else Get(YearCounts(t, lo), w) + YearSum(t, w, lo + 1, hi)
  }

  /** Adding the year above a range adds its count. */
  lemma {:induction false} YearSumExtend(t: YearTable, w: Word, lo: int, hi: int)
    requires lo <= hi + 1
    ensures YearSum(t, w, lo, hi + 1) == YearSum(t, w, lo, hi) + Get(YearCounts(t, hi + 1), w)
    decreases hi - lo
  {
    if lo <= hi {
      YearSumExtend(t, w, lo + 1, hi);
    }
  }

  /** A request's count of `w` is the sum over its years, and when
      `final < init` only the year `init` counts. */
  lemma {:induction false} RangeMergeSumsYears(t: YearTable, init: int, final: int, w: Word)
    ensures Get(RangeMerge(t, init, final), w) == YearSum(t, w, init, if final < init then init else final)
    decreases final - init
  {
    if final <= init {
      assert YearSum(t, w, init + 1, init) == 0;
    } else {
      RangeMergeSumsYears(t, init, final - 1, w);
      YearSumExtend(t, w, init, final - 1);
    }
  }

  /** A request's keys are the words of any year of its range. */
  lemma {:induction false} RangeMergeKeys(t: YearTable, init: int, final: int, w: Word)
    ensures w in RangeMerge(t, init, final) <==>
              exists y :: init <= y <= (if final < init then init else final) && w in YearCounts(t, y)
    decreases final - init
  {
    if final > init {
      RangeMergeKeys(t, init, final - 1, w);
      if w in YearCounts(t, final) {
        assert init <= final <= final;
      }
    }
  }

}
