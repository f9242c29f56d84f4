/** Configuration constants and the records that flow between the engine's parts. */
module Records {

  /** A hit whose distance is above this is dropped before grouping. */
  const MinThreshold: real := 1.75
  /** A range whose best distance is at most this is "most relevant". */
  const MostRelevantThreshold: real := 1.25
  /** Dimension of every embedding the encoder produces. */
  const ModelDimensions: nat := 768
  /** Largest number of neighbours a query asks for. */
  const DefaultK: nat := 10
  /** Number of characters of page text kept in a hit's preview. */
  const PreviewLength: nat := 200

  /** An embedding: an opaque vector of reals. */
  type Vector = seq<real>

  /** One indexed page: the metadata record aligned with one index vector. */
  datatype Entry = Entry(pdf: string, page: int, text: string)

  /** One raw search hit; `score` is a distance, lower is better. */
  datatype Hit = Hit(pdf: string, page: int, score: real, text: string, url: string)

  datatype Option<+T> = None | Some(value: T)
}
