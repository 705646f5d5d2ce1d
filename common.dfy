/** Values shared by the friend and message handlers: user identities and the
    optional fields of an HTTP request body. */
module Common {

  datatype Option<+T> = None | Some(value: T)

  /** A user's identity (a database object id). The schemas mark every user
      reference as required, so an identity is never empty. */
  type UserId = s: string | s != "" witness "u"

  /** JavaScript truthiness of an optional string field of a request body or
      query: absent (`undefined`) and the empty string are both falsy. */
  predicate Present(field: Option<string>)
  {
    field.Some? && field.value != ""
  }
}
