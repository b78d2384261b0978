/** The "no result" path of the route calculation. */
module Wrappers {
  datatype Option<+T> = None | Some(value: T)
}

/**
  The records of the delivery window: packages, map nodes and the
  delivery car, and the edge triples read from a map file.
  Weights, distances and speeds are exact reals standing for `double`.
 */
module DeliveryTypes {

  /** One delivery request; the destination is a node name, never checked. */
  datatype Package = Package(
    id: string,
    weight: real,
    destination: string,
    arrivalTime: int,
    deadline: int)

  /** A map node: its name and the distance to each neighbour, keyed by the neighbour's name. */
  datatype MapNode = MapNode(name: string, edges: map<string, real>)

  /** The part of the delivery car's profile the route calculation reads. */
  datatype DeliveryCar = DeliveryCar(speed: real, weight: real)

  /** One edge line of a map file: 1-based endpoints and a distance. */
  datatype EdgeRecord = EdgeRecord(u: int, v: int, w: real)

  /** A default-constructed node, as `QVector::resize` appends it. */
  const BlankNode: MapNode := MapNode("", map[])

  /** The profile the window's constructor gives the car; nothing changes it later. */
  const DefaultCar: DeliveryCar := DeliveryCar(1.0, 100.0)
}
