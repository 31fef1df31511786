/** What `renderMovies` decides for each card; the HTML text itself is not modelled. */
module Render {
  import opened Movies

  /** The image shown when a record has no poster URL. */
  const PLACEHOLDER_POSTER: string :=
    "data:image/svg+xml;charset=UTF-8,%3Csvg xmlns='http://www.w3.org/2000/svg' width='400' height='600'%3E%3Crect fill='%2314181f' width='400' height='600'/%3E%3Ctext x='50%25' y='50%25' fill='%23ffffff' font-size='28' font-family='Helvetica' text-anchor='middle'%3ENo%20Image%3C/text%3E%3C/svg%3E"

  /** The character badge shown when a record has no main character. */
  const DEFAULT_BADGE: string := "MCU"

  /** The fields one card displays. */
  datatype Card = Card(
    poster: string,
    phase: Option<string>,
    badge: string,
    title: string,
    releaseDate: Date,
    storyOrder: int)

  /** The card of one record, with the poster and badge fallbacks. */
  function CardOf(m: Movie): (c: Card)
    ensures c.poster != "" && c.badge != ""
    ensures Truthy(m.posterUrl) ==> c.poster == m.posterUrl.value
    ensures !Truthy(m.posterUrl) ==> c.poster == PLACEHOLDER_POSTER
    ensures Truthy(m.mainCharacter) ==> c.badge == m.mainCharacter.value
    ensures !Truthy(m.mainCharacter) ==> c.badge == DEFAULT_BADGE
    ensures c.phase == m.phase && c.title == m.title
    ensures c.releaseDate == m.releaseDate && c.storyOrder == m.chronologicalOrder
  {
    Card(
      if Truthy(m.posterUrl) then m.posterUrl.value else PLACEHOLDER_POSTER,
      m.phase,
      if Truthy(m.mainCharacter) then m.mainCharacter.value else DEFAULT_BADGE,
      m.title,
      m.releaseDate,
      m.chronologicalOrder)
  }

  /** `list.map(...)`: one card per record, in list order. */
  function Cards(list: seq<Movie>): (r: seq<Card>)
    ensures |r| == |list|
    ensures forall i :: 0 <= i < |list| ==> r[i] == CardOf(list[i])
  {
    seq(|list|, i requires 0 <= i < |list| => CardOf(list[i]))
  }
}
