/** Content digests. SHA-256 over `JSON.stringify` of a field object is kept
    symbolic: a digest is identified with the ordered (key, value) members of
    the object that was hashed, which idealises the hash as collision-free.
    Nothing here claims that two call sites hash the same members. */
module Hashing {

  /** A JSON member value: a string or `null`. */
  datatype JsonScalar = JStr(s: string) | JNull

  datatype Digest = Sha256(members: seq<(string, JsonScalar)>)
}
