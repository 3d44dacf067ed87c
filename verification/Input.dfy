/**
 The library routines the generated parsers call. Each hands over a value even when it fails, and the
 callers store it before they check; what that value is then is left open here.
 */
module Input {
  import opened Wire
  import M = Messages

  method TakeVarint64(ptr: Bytes) returns (v: uint64, ok: bool, rest: Bytes)
    ensures match ReadVarint64(ptr)
      case Ok(x, after) => ok && v == x && rest == after
      case Fail => !ok
  {
    match ReadVarint64(ptr)
    case Ok(x, after) => v, ok, rest := x, true, after;
    case Fail =>
      v := *;
      ok, rest := false, ptr;
  }

  method TakeString(ptr: Bytes) returns (str: Bytes, ok: bool, rest: Bytes)
    ensures match ReadLen(ptr)
      case Ok(bytes, after) => ok && str == bytes && rest == after
      case Fail => !ok
  {
    match ReadLen(ptr)
    case Ok(bytes, after) => str, ok, rest := bytes, true, after;
    case Fail =>
      str := *;
      ok, rest := false, ptr;
  }

  /** The bytes a nested message is parsed from, also when its length reaches past the end of the input. */
  method TakeLimited(ptr: Bytes) returns (bytes: Bytes, ok: bool, rest: Bytes)
    ensures match ReadLen(ptr)
      case Ok(inside, after) => ok && bytes == inside && rest == after
      case Fail => !ok && bytes == M.AtHand(ptr)
  {
    bytes, ok, rest := [], false, ptr;
    match ReadVarint(ptr, 5)
    case Ok(size, after) =>
      if size < TWO31 {
        ok := size <= |after|;
        bytes, rest := if ok then after[..size] else after, if ok then after[size..] else ptr;
      }
    case Fail =>
  }

  /** A packed run that breaks off still gives the elements before the break. */
  method TakePacked(ptr: Bytes) returns (vs: seq<uint64>, ok: bool, rest: Bytes)
    ensures match ReadLen(ptr)
      case Ok(bytes, after) =>
        var (elements, whole) := M.Unpack(bytes);
        if whole then ok && vs == elements && rest == after else !ok && elements <= vs
      case Fail => !ok
  {
    var more: seq<uint64> := *;
    match ReadLen(ptr)
    case Ok(bytes, after) =>
      var (elements, whole) := M.Unpack(bytes);
      vs, ok, rest := if whole then elements else elements + more, whole, after;
    case Fail => vs, ok, rest := more, false, ptr;
  }

  /** The fields to keep for a tag the caller does not know: one, or, on failure, whatever was stored of it. */
  method TakeUnknown(tag: uint32, ptr: Bytes) returns (fields: seq<Field>, ok: bool, rest: Bytes)
    ensures match ReadPayload(tag, ptr)
      case Ok(p, after) => ok && fields == [Field(tag / 8, p)] && rest == after
      case Fail => !ok
  {
    match ReadPayload(tag, ptr)
    case Ok(p, after) => fields, ok, rest := [Field(tag / 8, p)], true, after;
    case Fail =>
      fields := *;
      ok, rest := false, ptr;
  }
}
