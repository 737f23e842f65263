/** `Datasets` (`backend/app/datasets.py`): the built-in categories a rated round can be
    drawn from. Ratings are exact decimals, modelled as reals. */
module Datasets {

  datatype DatasetItem = DatasetItem(title: string, rating: real)

  datatype Dataset = Dataset(prompt: string, items: seq<DatasetItem>)

  const MOVIES: Dataset := Dataset(
    "Find the lowest-rated movie.",
    [ DatasetItem("The Room (2003)", 3.7),
      DatasetItem("Batman & Robin (1997)", 3.8),
      DatasetItem("Cats (2019)", 2.8),
      DatasetItem("Battlefield Earth (2000)", 2.5),
      DatasetItem("Jack and Jill (2011)", 3.1),
      DatasetItem("Movie 43 (2013)", 3.0),
      DatasetItem("The Last Airbender (2010)", 4.0),
      DatasetItem("Gigli (2003)", 2.6),
      DatasetItem("Wild Wild West (1999)", 4.3),
      DatasetItem("Twilight (2008)", 5.3),
      DatasetItem("Morbius (2022)", 5.2) ])

  /** `DATASETS`: category name to dataset. */
  const DATASETS: map<string, Dataset> := map["movies" := MOVIES]

  predicate TitlesDistinct(items: seq<DatasetItem>) {
    forall i, j | 0 <= i < j < |items| :: items[i].title != items[j].title
  }

  /** The one built-in category holds eleven items, enough for a round, and no two of
      them share a title. */
  lemma BuiltinDatasets()
    ensures DATASETS.Keys == {"movies"}
    ensures |DATASETS["movies"].items| == 11
    ensures TitlesDistinct(DATASETS["movies"].items)
  {
    var s := MOVIES.items;
    forall i, j | 0 <= i < j < |s| ensures s[i].title != s[j].title {
      assert |s[i].title| != |s[j].title| || s[i].title[0] != s[j].title[0] || s[i].title[4] != s[j].title[4];
    }
  }

  /** `random.sample(items, k)`: `idx` picks `k` distinct positions of a list of length `n`. */
  predicate IsSample(idx: seq<nat>, n: nat, k: nat) {
    && |idx| == k
    && (forall a | 0 <= a < |idx| :: idx[a] < n)
    && (forall a, b | 0 <= a < b < |idx| :: idx[a] != idx[b])
  }

  function Picked(items: seq<DatasetItem>, idx: seq<nat>): (r: seq<DatasetItem>)
    requires forall a | 0 <= a < |idx| :: idx[a] < |items|
    ensures |r| == |idx| && forall a | 0 <= a < |idx| :: r[a] == items[idx[a]]
  {
    seq(|idx|, a requires 0 <= a < |idx| => items[idx[a]])
  }

  /** A sample of a list with distinct titles has distinct titles. */
  lemma PickedTitlesDistinct(items: seq<DatasetItem>, idx: seq<nat>)
    requires IsSample(idx, |items|, |idx|)
    requires TitlesDistinct(items)
    ensures TitlesDistinct(Picked(items, idx))
  {
    var p := Picked(items, idx);
    forall a, b | 0 <= a < b < |p| ensures p[a].title != p[b].title {
      if idx[a] < idx[b] {
        assert items[idx[a]].title != items[idx[b]].title;
      } else {
        assert items[idx[b]].title != items[idx[a]].title;
      }
    }
  }
}
