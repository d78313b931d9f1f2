/** The cities of a tour. */
module Cities {

  /**
   * A city read from the input. Its identity is the object reference, as in the Java code:
   * the class does not define equality by id, so two cities with the same fields are still
   * different cities.
   */
  class City {
    const id: int
    const x: int
    const y: int

    constructor (id: int, x: int, y: int)
      ensures this.id == id && this.x == x && this.y == y
    {
      this.id := id;
      this.x := x;
      this.y := y;
    }
  }
}
