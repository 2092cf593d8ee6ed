/** The marker records kept in the application's `points` list. */
module Points {

  /** A Leaflet `LatLng`, in degrees. Leaflet does not range-check either
      coordinate, and neither does the model. */
  datatype LatLng = LatLng(lat: real, lng: real)

  /** One marker: where it is, the radius (in metres) it was created with,
      and the label the user typed for it (empty until edited). */
  datatype Point = Point(latlng: LatLng, radius: real, name: string)
}
