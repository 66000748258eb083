/** The two record shapes the chat backend stores: a registered user and one
    answered chat exchange. */
module Records {

  /** A registered user: its unique name, the sliding window of its recent
      access times (unix seconds, oldest first) and the number of answered
      chat turns. */
  datatype User = User(name: string, lastAccess: seq<int>, messageCount: int)

  /** One stored exchange: who asked, when (unix seconds), what they asked and
      the reply the completion provider gave. */
  datatype Message = Message(userName: string, timestamp: int, message: string, reply: string)
}
