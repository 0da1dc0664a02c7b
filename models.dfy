/**
 * The records the NatureApp front end receives from its REST API
 * (`src/app/core/models/place.model.ts`). JSON numbers that are identifiers
 * are `int`; measurements are `real`. Optional TypeScript properties are
 * `Option`s.
 */
module Models {
  import opened Wrappers

  /** A natural point of interest. */
  datatype Place = Place(
    id: int,
    name: string,
    description: Option<string>,
    category: string,
    latitude: real,
    longitude: real,
    elevationMeters: real,
    accessible: bool,
    entryFee: real,
    openingHours: string,
    createdAt: Option<string>)

  /** A walking route; `placeId` refers back to the place that owns it. */
  datatype Trail = Trail(
    id: int,
    placeId: int,
    name: string,
    distanceKm: real,
    estimatedTimeMinutes: real,
    difficulty: string,
    isLoop: bool,
    path: Option<string>)

  datatype Photo = Photo(id: int, placeId: int, url: string, description: string)

  datatype Amenity = Amenity(id: int, name: string)

  datatype Review = Review(
    id: int,
    placeId: int,
    author: string,
    rating: real,
    comment: string,
    createdAt: string)

  /**
   * `PlaceDetail extends Place`: the place's own fields, kept together in
   * `place`, plus the collections it owns.
   */
  datatype PlaceDetail = PlaceDetail(
    place: Place,
    trails: seq<Trail>,
    photos: seq<Photo>,
    reviews: seq<Review>,
    amenities: seq<Amenity>)

  /** `Trail & { placeName: string }`: a trail tagged with its place's name. */
  datatype TaggedTrail = TaggedTrail(trail: Trail, placeName: string)

  /** The AI-generated description of a place. */
  datatype AISummary = AISummary(summary: string, generatedAt: string, model: string)
}
