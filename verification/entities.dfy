/** The persisted entities of the backend (TrailerRent.Models/Entities).
    Dates are .NET ticks (100 ns units), money is integer cents, and the
    navigation collections of the ORM are replaced by the separate stores
    that the repositories query. */
module Entities {
  import opened Common

  datatype RentalStatus = Pending | Confirmed | Active | Completed | Cancelled

  datatype TrailerType = Cargo | Utility | Boat | Car | Equipment | Livestock | Refrigerated

  datatype Rental = Rental(
    id: int,
    userId: int,
    trailerId: int,
    startDate: int,
    endDate: int,
    totalPrice: int,
    status: RentalStatus,
    notes: Option<string>,
    createdAt: int,
    updatedAt: int)

  datatype TrailerImage = TrailerImage(
    id: int,
    trailerId: int,
    imageUrl: string,
    description: Option<string>,
    isPrimary: bool)

  /** `maxWeight` is a double in the source; here it is an integer. */
  datatype Trailer = Trailer(
    id: int,
    name: string,
    description: Option<string>,
    kind: TrailerType,
    pricePerDay: int,
    maxWeight: int,
    licensePlate: Option<string>,
    isAvailable: bool,
    createdAt: int,
    updatedAt: int,
    images: seq<TrailerImage>)

  datatype User = User(
    id: int,
    email: string,
    passwordHash: string,
    firstName: string,
    lastName: string,
    phoneNumber: Option<string>,
    isActive: bool)

  /** Ticks in one day (`TimeSpan.TicksPerDay`). */
  const TicksPerDay: int := 864_000_000_000

  /** Completed and Cancelled rentals no longer hold their trailer. */
  predicate IsTerminal(s: RentalStatus) {
    s == Completed || s == Cancelled
  }
}
