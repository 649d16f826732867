/** The C API value types the interop and replicator code pass around: error
    domains, `C4Error` and `C4Slice`. Their declarations are not part of
    this model; only the shape the modelled code relies on is kept. */
module C4Base {

  /** `C4ErrorDomain`. The zero value, which no real error carries, is the
      one `NativeHandler` treats as "any domain". */
  datatype C4ErrorDomain =
    | NoDomain | LiteCoreDomain | POSIXDomain | SQLiteDomain
    | FleeceDomain | NetworkDomain | WebSocketDomain

  /** `C4Error`: a domain, a code (0 means "no error") and opaque internal
      information. Two errors are equal when all three agree, as the C#
      struct's default `Equals` has it. */
  datatype C4Error = C4Error(domain: C4ErrorDomain, code: int, internalInfo: int)

  /** `C4Error(domain, code)` as the C# side builds it. */
  function MakeError(domain: C4ErrorDomain, code: int): C4Error {
    C4Error(domain, code, 0)
  }

  /** The "no error" value a C call leaves in its out-parameter. */
  const NoError := C4Error(NoDomain, 0, 0)

  /** `kC4ErrorRemoteError`, LiteCore's code for an error the peer reported. */
  const RemoteError := 26

  /** A pointer, with 0 standing for null. */
  type Pointer = nat

  const Null: Pointer := 0

  /** `C4Slice`: a pointer and a byte count. */
  datatype C4Slice = C4Slice(buf: Pointer, size: nat)
}
