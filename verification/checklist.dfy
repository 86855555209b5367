/** The record the application stores: a vehicle inspection checklist made of sections
    of items, free-text fields and up to two photos, plus the signed-in user. */
module Checklist {

  import opened Wrappers

  /** An item's rating: `'ok'`, `'regular'` or `'ruim'`. */
  datatype Status = Ok | Regular | Ruim

  datatype Item = Item(id: string, name: string, status: Status, notes: string)

  datatype Section = Section(id: string, title: string, sectionNotes: string, items: seq<Item>)

  /** `VehicleChecklist`. Timestamps are milliseconds since the epoch; the source stores
      their ISO-8601 rendering. */
  datatype VehicleChecklist = VehicleChecklist(
    id: string,
    userId: string,
    plate: string,
    km: string,
    driver: string,
    date: string,
    time: string,
    sections: seq<Section>,
    images: seq<string>,
    generalNotes: string,
    driverSignature: string,
    inspectorSignature: string,
    createdAt: int,
    updatedAt: int)

  /** The signed-in user as the screens see it (`useAuth().user`). */
  datatype User = User(id: string, role: string)

  /** `user?.role === 'admin'`. */
  predicate IsAdmin(user: Option<User>) {
    user.Some? && user.value.role == "admin"
  }

  /** `user?.id || ''`: the user's id, or the empty string when signed out or id-less. */
  function UserIdOr(user: Option<User>): string {
    if user.Some? then user.value.id else ""
  }

  /** Records a user may see: every record for an admin, otherwise exactly those whose
      owner is the user (`c.userId === user?.id`; nothing when nobody is signed in). */
  predicate VisibleTo(user: Option<User>, c: VehicleChecklist) {
    IsAdmin(user) || (user.Some? && c.userId == user.value.id)
  }
}
