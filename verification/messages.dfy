/** Chat messages as the bot stores them: `{'role': ..., 'content': ...}`. */
module Messages {

  datatype Role = System | User | Assistant

  /** The role as it is written into a message record and into the summary prompt. */
  function RoleName(r: Role): string {
    match r
    case System => "system"
    case User => "user"
    case Assistant => "assistant"
  }

  datatype Message = Message(role: Role, content: string)

  /** One conversation thread; index 0 holds the persona directive. */
  type Thread = seq<Message>

  const PersonaText := "You are a helpful assistant. Keep replies within 20 words"

  /** The system message every fresh thread starts with. */
  const Persona := Message(System, PersonaText)

  /** A thread as the bot creates and keeps it: non-empty, persona first. */
  predicate StartsWithPersona(t: Thread) {
    |t| > 0 && t[0] == Persona
  }
}
