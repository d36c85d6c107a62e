/** The shape of the shared record types of src/types/artwork.ts. */
module ArtworkTypes {
  import opened Wrappers

  /** `ArtworkCategory`: the six art-historical categories. */
  datatype ArtworkCategory = Renaissance | Modern | Contemporary | Abstract | Impressionism | Surrealism

  /** `Artwork`; the optional `dominantColors?` is an Option. */
  datatype Artwork = Artwork(
    id: int,
    title: string,
    artist: string,
    year: string,
    medium: string,
    image: string,
    description: string,
    dimensions: string,
    category: ArtworkCategory,
    dominantColors: Option<seq<string>>,
    tags: seq<string>)
}
