/** Warehouses entered through the data-entry form, and the range check that
    decides whether a submitted coordinate pair joins the session's list. */
module Warehouses {

  /** A latitude/longitude pair in degrees, as handed to the distance function. */
  datatype Coord = Coord(latitude: real, longitude: real)

  /** One row of the warehouse list: a name (not required to be unique) and
      its coordinates. */
  datatype Warehouse = Warehouse(name: string, latitude: real, longitude: real)
  {
    function Position(): Coord { Coord(latitude, longitude) }
  }

  /** The admission rule: latitude within [-90, 90] and longitude within
      [-180, 180], both bounds inclusive. */
  predicate InRange(lat: real, lon: real)
  {
    -90.0 <= lat <= 90.0 && -180.0 <= lon <= 180.0
  }

  /** Every warehouse in `ws` passed the admission rule. */
  ghost predicate AllInRange(ws: seq<Warehouse>)
  {
    forall k :: 0 <= k < |ws| ==> InRange(ws[k].latitude, ws[k].longitude)
  }

  /** The list of warehouses kept for the session; new rows are appended. */
  class Session {
    var warehouses: seq<Warehouse>

    /** Only admitted coordinates are ever stored. */
    ghost predicate Valid()
      reads this
    {
      AllInRange(warehouses)
    }

    /** The session starts with an empty list. */
    constructor ()
      ensures Valid() && warehouses == []
    {
      warehouses := [];
    }

    /** A submitted form with already-numeric coordinates: the row is appended
        exactly when the coordinates are in range, and otherwise the list is
        left as it was. `added` tells which of the two messages is shown. */
    method Submit(name: string, lat: real, lon: real) returns (added: bool)
      requires Valid()
      modifies this
      ensures Valid()
      ensures added <==> InRange(lat, lon)
      ensures added ==> warehouses == old(warehouses) + [Warehouse(name, lat, lon)]
      ensures !added ==> warehouses == old(warehouses)
    {
      if InRange(lat, lon) {
        warehouses := warehouses + [Warehouse(name, lat, lon)];
        added := true;
      } else {
        added := false;
      }
    }
  }
}
