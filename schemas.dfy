/** Records stored by the dating back end: one datatype per Mongoose schema,
    plus the small result and error types shared by the controllers. */
module Schemas {

  datatype Option<+T> = None | Some(value: T)

  /** The text of a MongoDB ObjectId in its stored, lower-case spelling (see
      the ObjectIds module for other spellings); ids are compared as text. */
  type UserId = string
  type PostId = string

  datatype Gender = Male | Female | Other

  /** A user document. `likes`, `likedBy` and `matches` are arrays that are only
      ever changed with `$addToSet` and `$pull`, so they behave as sets. */
  datatype User = User(
    email: string,
    password: string,
    isVerified: bool,
    isActive: bool,
    name: string,
    age: int,
    gender: Gender,
    bio: string,
    avatar: string,
    likes: set<UserId>,
    likedBy: set<UserId>,
    matches: set<UserId>,
    seenPosts: set<PostId>)

  /** Default value of the `avatar` field of the user schema. */
  const DefaultAvatar := "https://res.cloudinary.com/demo/image/upload/default-avatar.png"

  /** The notification schema admits only these two kinds. */
  datatype NotificationKind = LikeNotice | MatchNotice

  datatype Notification = Notification(sender: UserId, receiver: UserId, kind: NotificationKind, isRead: bool)

  /** A time slot as the client sends it: date "YYYY-MM-DD", times "HH:mm". */
  datatype TimeSlot = TimeSlot(date: string, startTime: string, endTime: string)

  datatype AppointmentStatus = Scheduled | Canceled

  datatype Appointment = Appointment(
    user1: UserId,
    user2: UserId,
    date: string,
    startTime: string,
    endTime: string,
    status: AppointmentStatus)

  datatype Post = Post(id: PostId, user: UserId, content: string, image: Option<string>, createdAt: int)

  datatype OtpPurpose = Register | ResetPassword

  /** An OTP document; `expiresAt` is in milliseconds since the epoch. */
  datatype OtpRecord = OtpRecord(email: string, otp: string, purpose: OtpPurpose, isUsed: bool, expiresAt: int)

  datatype RefreshTokenRecord = RefreshTokenRecord(token: string, userId: UserId)

  /** The display fields that `populate('sender', 'name avatar')` inlines. */
  datatype SenderView = SenderView(name: string, avatar: string)

  /** What is pushed on the `receive_notification` socket event. */
  datatype Payload =
    | NotificationEvent(notification: Notification, sender: SenderView)
    | DateScheduledEvent(senderName: string)

  /** HTTP statuses used by the handlers (constants/httpStatus.ts). */
  datatype HttpStatus = Ok200 | Created201 | BadRequest400 | NotFound404 | ServerError500
  {
    function Code(): nat
    {
      match this
      case Ok200 => 200
      case Created201 => 201
      case BadRequest400 => 400
      case NotFound404 => 404
      case ServerError500 => 500
    }
  }

  /** A handler either answers with a value or rejects with a status and a reason. */
  datatype Result<+T, +E> = Ok(value: T) | Err(error: E)
}
