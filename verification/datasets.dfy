/**
 * The dataset registry and the choice of dataset from the `data` query value
 * (script.js, lines 2-23).
 */
module Datasets {
  import opened Wrappers

  /** What the page knows about one dataset: the texts it shows and where the data lives. */
  datatype Descriptor = Descriptor(title: string, description: string, filePath: string)

  /** The key used when the query carries no usable `data` value. */
  const DefaultKey: string := "kickstarter"

  /** The three datasets the page can show, by key. */
  const Registry: map<string, Descriptor> := map[
    "videogames" := Descriptor(
      "Video Game Sales",
      "Top 100 Most Sold Video Games Grouped by Platform",
      "https://cdn.rawgit.com/freeCodeCamp/testable-projects-fcc/a80ce8f9/src/data/tree_map/video-game-sales-data.json"),
    "movies" := Descriptor(
      "Movie Sales",
      "Top 100 Highest Grossing Movies Grouped By Genre",
      "https://cdn.rawgit.com/freeCodeCamp/testable-projects-fcc/a80ce8f9/src/data/tree_map/movie-data.json"),
    "kickstarter" := Descriptor(
      "Kickstarter Pledges",
      "Top 100 Most Pledged Kickstarter Campaigns Grouped By Category",
      "https://cdn.rawgit.com/freeCodeCamp/testable-projects-fcc/a80ce8f9/src/data/tree_map/kickstarter-funding-data.json")
  ]

  /** A query value JavaScript treats as false: missing (`null`) or the empty string. */
  predicate Falsy(param: Option<string>) {
    param.None? || param.value == ""
  }

  /**
   * The lookup `DATASETS[param || DEFAULT_DATASET]`: the default replaces only a
   * falsy value; a key the registry does not hold yields no descriptor.
   */
  function Select(param: Option<string>): (r: Option<Descriptor>)
    ensures Falsy(param) ==> r == Some(Registry[DefaultKey])
    ensures param.Some? && param.value in Registry ==> r == Some(Registry[param.value])
    ensures !Falsy(param) && param.value !in Registry ==> r == None
    ensures r.Some? <==> Falsy(param) || param.value in Registry
  {
    var key := if Falsy(param) then DefaultKey else param.value;
    if key in Registry then Some(Registry[key]) else None
  }

  /** A non-empty key outside the registry reaches the page with no descriptor at all. */
  lemma UnknownKeyHasNoDescriptor()
    ensures Select(Some("books")) == None
    ensures Select(Some("Movies")) == None
  {
  }

  /**
   * The lookup as the comments and the page's documentation describe it: any key
   * outside the registry falls back to the default, so a descriptor always exists.
   */
  function SelectOrDefault(param: Option<string>): (r: Descriptor)
    ensures r in Registry.Values
    ensures param.Some? && param.value in Registry ==> r == Registry[param.value]
    ensures param.None? || param.value !in Registry ==> r == Registry[DefaultKey]
    ensures Select(param).Some? ==> Select(param) == Some(r)
  {
    if param.Some? && param.value in Registry then Registry[param.value] else Registry[DefaultKey]
  }
}
