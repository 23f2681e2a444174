/** The show record of the remote catalog, as far as the client reads or stores it.
    JSON `null` and a missing property are both `None`. */
module Catalog {
  import opened Wrappers

  datatype Image = Image(medium: Option<string>, original: Option<string>)

  /** `rating.average` is a number from 0 to 10, or missing. */
  datatype Rating = Rating(average: Option<real>)

  /** A broadcast network or web channel. */
  datatype Channel = Channel(id: int, name: string)

  datatype Show = Show(
    id: int,
    name: string,
    image: Option<Image>,
    rating: Option<Rating>,
    genres: seq<string>,
    status: string,
    summary: string,
    premiered: string,
    network: Option<Channel>,
    webChannel: Option<Channel>,
    language: string,
    runtime: Option<int>,
    officialSite: Option<string>)
}
