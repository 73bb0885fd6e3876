/** The message kinds of the binary order-entry protocol and their one-byte codes. */
module MessageTypes {
  import opened JavaTypes
  import opened Wrappers

  datatype MessageType = ADD | CANCEL | MODIFY | EXECUTE {
    /** The wire byte of this kind: 'A', 'C', 'M' or 'E'. */
    function Code(): (c: JByte)
      ensures c in {65, 67, 77, 69}
    {
      match this
      case ADD => 65
      case CANCEL => 67
      case MODIFY => 77
      case EXECUTE => 69
    }
  }

  /** `MessageType.values()`, in declaration order. */
  const Values: seq<MessageType> := [ADD, CANCEL, MODIFY, EXECUTE]

  datatype DecodeError = InvalidMessageType(code: JByte)

  /** The first kind in `types` whose code is `code`, if any. */
  function Search(types: seq<MessageType>, code: JByte): (r: Option<MessageType>)
    ensures r.Some? ==> r.value in types && r.value.Code() == code
    ensures r.None? <==> forall t :: t in types ==> t.Code() != code
  {
    if types == [] then None
    else if types[0].Code() == code then Some(types[0])
    else Search(types[1..], code)
  }

  /** `fromByte`: the kind whose code is `code`, or an error for any other byte. */
  function FromByte(code: JByte): (r: Result<MessageType, DecodeError>)
    ensures r.Ok? <==> code in {65, 67, 77, 69}
    ensures r.Ok? ==> r.value.Code() == code
    ensures r.Err? ==> r.error == InvalidMessageType(code)
  {
    match Search(Values, code)
    case Some(t) => Ok(t)
    case None => Err(InvalidMessageType(code))
  }

  /** The four codes are pairwise distinct, so a code names exactly one kind. */
  lemma CodeInjective(s: MessageType, t: MessageType)
    ensures s.Code() == t.Code() ==> s == t
  {
  }

  /** `fromByte` inverts `code` on every kind. */
  lemma FromByteOfCode(t: MessageType)
    ensures FromByte(t.Code()) == Ok(t)
  {
    CodeInjective(t, FromByte(t.Code()).value);
  }
}
