/** Names: sequences of typed components (std/encoding/component.go, std/encoding/name_pattern.go). */
module NdnName {
  type Byte = b: int | 0 <= b < 256

  type Bytes = seq<Byte>

  /** The bytes of a segmented buffer. */
  function Join(wire: seq<Bytes>): Bytes {
    if wire == [] then [] else Join(wire[..|wire| - 1]) + wire[|wire| - 1]
  }

  datatype Component = Component(typ: nat, val: Bytes)

  type Name = seq<Component>

  function Parent(n: Name): Name
    requires n != []
  {
    n[..|n| - 1]
  }

  /** `k` is the length of the longest prefix of the name in the map. */
  ghost predicate Longest<T>(m: map<Name, T>, name: Name, k: nat) {
    k <= |name| && name[..k] in m && forall j :: k < j <= |name| ==> name[..j] !in m
  }
}
