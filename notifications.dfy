/**
 * The three messages the service hands to the bot (TelegramBotService's
 * sendCarAdditionNotification, sendCarUpdateNotification and
 * sendCarDeletionNotification), each recorded with the arguments it was called with.
 */
module Notifications {
  import opened Wrappers

  datatype Notification =
    | Added(brand: string, releaseYear: int, regDate: string, ownerName: Option<string>)
    | Updated(brand: string, releaseYear: int, regDate: string, ownerName: Option<string>, changedField: string)
    | Deleted(brand: string, regDate: string, owner: string)
}
