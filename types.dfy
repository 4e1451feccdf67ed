/** The records the ledger stores under its two collection keys. */
module Types {

  type UserId = string
  type EventId = string
  type ClubId = string

  datatype Option<+T> = None | Some(value: T)

  datatype Role = Student | Club

  datatype Status = Upcoming | Ongoing | Completed

  /** A user record.  Fields that a record may lack altogether (the seeded
      club account has no phone, roll number, starred or participation list;
      students have no club) are options. */
  datatype User = User(
    id: UserId,
    name: string,
    email: string,
    role: Role,
    phone: Option<string>,
    rollNumber: Option<string>,
    tokens: nat,
    starredEvents: Option<seq<EventId>>,
    participatedEvents: Option<seq<EventId>>,
    clubId: Option<ClubId>)

  /** An event record.  `registered` is a stored counter that is only
      re-synchronised with |participants| when the participant list changes. */
  datatype Event = Event(
    id: EventId,
    name: string,
    club: string,
    clubId: ClubId,
    clubLogo: string,
    venue: string,
    date: string,
    startTime: string,
    endTime: string,
    status: Status,
    tokens: nat,
    description: string,
    capacity: nat,
    registered: nat,
    starredBy: seq<UserId>,
    participants: seq<UserId>)

  /** The fields a club's new-event form hands to createEvent. */
  datatype EventData = EventData(
    name: string,
    description: string,
    venue: string,
    date: string,
    startTime: string,
    endTime: string,
    capacity: nat,
    tokens: nat,
    club: string,
    clubLogo: string)

  /** The event lists the user among its starrers. */
  function StarredByUser(userId: UserId): Event -> bool
  {
    (e: Event) => userId in e.starredBy
  }
}
