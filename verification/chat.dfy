/**
  Role-tagged chat messages as submitted to the completion endpoint
  (api/index.py lines 114, 117, 131) and the fixed copywriting directive
  (lines 34-53).
 */
module Chat {

  datatype Role = System | User | Assistant

  /** One `{"role": ..., "content": ...}` entry of a conversation history. */
  datatype Message = Message(role: Role, content: string)

  type History = seq<Message>

  /**
    Stands for the fixed copywriting directive of lines 34-53. Its wording is
    not modelled: no property here depends on it, only on its being one
    fixed system message.
   */
  const SystemPrompt: string := "copywriting directive"

  /** The entry a user's history is seeded with on first contact. */
  const Directive: Message := Message(System, SystemPrompt)
}
