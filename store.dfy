/** The MongoDB collections the handlers read and write, as fields of one
    object; each handler is a method that names the collections it changes. */
module Store {
  import opened Schemas

  class Database {
    /** `users`, keyed by id. */
    var users: map<UserId, User>
    /** `notifications`, in insertion order. */
    var notifications: seq<Notification>
    /** `posts`, in insertion order. */
    var posts: seq<Post>
    /** `dateavailabilities`, keyed by the unique index (userId, targetUserId). */
    var availability: map<(UserId, UserId), seq<TimeSlot>>
    /** `dateappointments`, in insertion order. */
    var appointments: seq<Appointment>
    /** `otps`, in insertion order. */
    var otps: seq<OtpRecord>
    /** `refreshtokens`, in insertion order. */
    var refreshTokens: seq<RefreshTokenRecord>

    /** An empty database. */
    constructor ()
      ensures users == map[] && notifications == [] && posts == []
      ensures availability == map[] && appointments == [] && otps == [] && refreshTokens == []
    {
      users := map[];
      notifications := [];
      posts := [];
      availability := map[];
      appointments := [];
      otps := [];
      refreshTokens := [];
    }
  }
}
