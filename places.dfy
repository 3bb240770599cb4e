/** The places the map can be sent to through the URL hash. */
module Places {
  import opened Wrappers
  import opened Vehicles

  /** A place: map centre `[lng, lat]`, zoom level, and the name sent to the feed. */
  datatype Place = Place(center: LngLat, zoom: int, name: string)

  const SF := Place(LngLat(-122.43332887350739, 37.7665252509697), 12, "SF")
  const BAYAREA := Place(LngLat(-122.26666379640395, 37.65959600564773), 10, "BAYAREA")
  const NYC := Place(LngLat(-73.96204603887533, 40.76983974255722), 10, "NYC")
  /** The initial view; no hash leads to it. */
  const USA := Place(LngLat(-98.47252196050131, 38.934262001940496), 5, "USA")

  /** The place a URL hash selects, if any: only `#SF`, `#BAYAREA` and `#NYC` do. */
  function PlaceForHash(hash: string): (r: Option<Place>)
    ensures r.Some? <==> hash == "#SF" || hash == "#BAYAREA" || hash == "#NYC"
    ensures r.Some? ==> hash == "#" + r.value.name && r.value != USA
  {
    match hash
    case "#SF" => Some(SF)
    case "#BAYAREA" => Some(BAYAREA)
    case "#NYC" => Some(NYC)
    case _ => None
  }
}
