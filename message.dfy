/** The `Message` value of src/objects/message.cpp: a content string and a
    32-bit epoch, fixed at construction and only read afterwards. */
module Messages {
  import opened Bytes

  datatype Message = Message(content: Bytes, epoch: u32)
  {
    /** `getContent`. */
    function GetContent(): Bytes {
      content
    }

    /** `getEpoch`. */
    function GetEpoch(): u32 {
      epoch
    }
  }

  /** `Message(content, epoch)`: the getters give back what was passed. */
  function NewMessage(content: Bytes, epoch: u32): (m: Message)
    ensures m.GetContent() == content
    ensures m.GetEpoch() == epoch
  {
    Message(content, epoch)
  }

  /** `Message()`: epoch 0 and an empty content. */
  function DefaultMessage(): (m: Message)
    ensures m.GetEpoch() == 0
    ensures m.GetContent() == []
  {
    Message([], 0)
  }
}
