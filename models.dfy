/** The record kept by the task store, and the shape a request body is bound to. */
module Models {

  /** A value that may be absent; `None` stands for a C# `null`. */
  datatype Option<+T> = None | Some(value: T)

  /** A stored task: server-assigned id, free-text description, completion flag. */
  datatype TaskItem = TaskItem(id: int, description: string, isCompleted: bool)

  /** A task as bound from a JSON request body. The client may supply any id and
      completion flag, and the description may be missing (`None`). */
  datatype TaskBody = TaskBody(id: int, description: Option<string>, isCompleted: bool)

  /** The characters .NET's `char.IsWhiteSpace` accepts: the Unicode space, line and
      paragraph separators, the control characters U+0009 to U+000D, and U+0085. */
  predicate IsWhiteSpace(c: char)
  {
    var n := c as int;
    (0x09 <= n <= 0x0D) || n == 0x20 || n == 0x85 || n == 0xA0 || n == 0x1680
    || (0x2000 <= n <= 0x200A) || n == 0x2028 || n == 0x2029 || n == 0x202F
    || n == 0x205F || n == 0x3000
  }

  /** `string.IsNullOrWhiteSpace`: absent, empty, or made of white space only. */
  predicate IsNullOrWhiteSpace(s: Option<string>)
  {
    match s
    case None => true
    case Some(t) => forall i :: 0 <= i < |t| ==> IsWhiteSpace(t[i])
  }
}
