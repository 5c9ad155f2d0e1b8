/** A document of the `animes` collection, as the pages read it. */
module Catalog {
  import opened Js

  /**
    One catalog entry. `None` stands for a field stored as `null` (what the
    add form and the edit modal write for an empty input). `createdAt` is the
    server timestamp in whole seconds, absent while the write is pending;
    `featuredRank` is whatever number was stored, NaN included.
  */
  datatype Entry = Entry(
    id: string,
    name: string,
    language: Option<string>,
    season: Option<string>,
    totalEpisodes: Option<int>,
    imageUrl: string,
    createdAt: Option<nat>,
    featuredRank: Option<Number>)
}
