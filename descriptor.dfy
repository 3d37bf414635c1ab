/**
 * The parts of a compiled protobuf file descriptor that the tag plugin reads,
 * as plain values, and the comment table it builds from them.
 */
module Descriptor {

  /**
   * A path into the descriptor tree, as kept in the source-code-info table:
   * alternately the number of a descriptor field and an index into it.
   */
  type Path = seq<int>

  /** Field number of `message_type` in `FileDescriptorProto`. */
  const MessageTypeTag: int := 4
  /** Field number of `nested_type` in `DescriptorProto`. */
  const NestedTypeTag: int := 3
  /** Field number of `field` in `DescriptorProto`. */
  const FieldTag: int := 2

  /** The tag given to a field that has no trailing comment. */
  const DefaultTag: string := "valid:\"-\""

  datatype Field = Field(name: string)

  /** A message declaration: its name, its fields in order, and the messages declared inside it. */
  datatype Message = Message(name: string, fields: seq<Field>, nested: seq<Message>)

  /** One entry of the source-code-info table. */
  datatype Location = Location(path: Path, trailingComments: string)

  /** One compiled `.proto` file: its top-level messages and its source-code-info table. */
  datatype FileDescriptor = FileDescriptor(messages: seq<Message>, locations: seq<Location>)

  /** Message name to (field name to tag text), the plugin's `comments` table. */
  type CommentMap = map<string, map<string, string>>

  /** No tag text in the table contains `$`. */
  ghost predicate NoDollar(comments: CommentMap) {
    forall m, f :: m in comments && f in comments[m] ==> '$' !in comments[m][f]
  }

  /** No trailing comment of the table contains `$`. */
  ghost predicate NoDollarComments(locations: seq<Location>) {
    forall t :: 0 <= t < |locations| ==> '$' !in locations[t].trailingComments
  }
}
