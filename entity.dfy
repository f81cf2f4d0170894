/**
 * The stored credential: one row of the token table. The hash is set at
 * construction and by `SetTokenHash`; `createdAt` is fixed for the life of the
 * object, which the model makes a `const`.
 */
module Entity {
  import opened Wrappers

  class FilesyncToken {
    /** Assigned by the store when the entity is first persisted. */
    var id: Option<int>
    var tokenHash: string
    /** The last characters of the plaintext, kept for masked display. */
    var lastChars: Option<string>
    const createdAt: int
    var updatedAt: Option<int>

    /** A new, not yet persisted credential created at time `now`. */
    constructor (tokenHash: string, lastChars: Option<string> := None, now: int)
      ensures this.tokenHash == tokenHash && this.lastChars == lastChars
      ensures id == None && updatedAt == None && createdAt == now
    {
      this.id := None;
      this.tokenHash := tokenHash;
      this.lastChars := lastChars;
      this.createdAt := now;
      this.updatedAt := None;
    }

    method GetId() returns (r: Option<int>)
      ensures r == id
    {
      r := id;
    }

    method GetTokenHash() returns (r: string)
      ensures r == tokenHash
    {
      r := tokenHash;
    }

    /** Replaces the hash and stamps the modification time; nothing else changes. */
    method SetTokenHash(hash: string, now: int)
      modifies this`tokenHash, this`updatedAt
      ensures tokenHash == hash && updatedAt == Some(now)
      ensures lastChars == old(lastChars) && id == old(id)
    {
      tokenHash := hash;
      updatedAt := Some(now);
    }

    method GetLastChars() returns (r: Option<string>)
      ensures r == lastChars
    {
      r := lastChars;
    }

    /** Replaces the display hint and stamps the modification time; the hash is kept. */
    method SetLastChars(chars: Option<string>, now: int)
      modifies this`lastChars, this`updatedAt
      ensures lastChars == chars && updatedAt == Some(now)
      ensures tokenHash == old(tokenHash) && id == old(id)
    {
      lastChars := chars;
      updatedAt := Some(now);
    }

    method GetCreatedAt() returns (r: int)
      ensures r == createdAt
    {
      r := createdAt;
    }

    method GetUpdatedAt() returns (r: Option<int>)
      ensures r == updatedAt
    {
      r := updatedAt;
    }
  }

  /** PHP's `(int)` cast of a nullable id: `null` becomes 0. */
  function IdAsInt(id: Option<int>): (n: int)
    ensures id.None? ==> n == 0
    ensures id.Some? ==> n == id.value
  {
    id.GetOr(0)
  }

  /** The stored hashes, in the order the rows are listed. */
  function HashesOf(entries: seq<FilesyncToken>): (hs: seq<string>)
    reads entries
    ensures |hs| == |entries|
    ensures forall i :: 0 <= i < |entries| ==> hs[i] == entries[i].tokenHash
  {
    seq(|entries|, i requires 0 <= i < |entries| reads entries => entries[i].tokenHash)
  }
}
