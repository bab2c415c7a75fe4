/**
 * The media vocabulary shared by the classifier and the takeout solver
 * (package internal/metadata of the repository).
 */
module Media {

  /** metadata.TypeUnknown / TypeImage / TypeVideo */
  datatype MediaType = TypeUnknown | TypeImage | TypeVideo

  /**
   * metadata.Metadata, restricted to the fields the takeout solver reads or
   * writes. Dates are Unix seconds; coordinates (float64 in the source) are
   * reals that are only compared with zero and copied.
   */
  datatype Metadata = Metadata(
    fileName: string,
    dateTaken: int,
    archived: bool,
    fromPartner: bool,
    trashed: bool,
    favorited: bool,
    latitude: real,
    longitude: real,
    collections: seq<string>)
}
