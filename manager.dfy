/**
 * The token manager: generation of the single global token, lookups by
 * plaintext, the masked display form and the settings-form callbacks.
 * `hash` stands for `password_hash` and `matches` for `password_verify`;
 * the random bytes are a parameter.
 */
module Manager {
  import opened Wrappers
  import opened Text
  import opened Entity
  import opened TokenRepository
  import opened Matching
  import opened Base64
  import Verifier

  const MIN_LENGTH := 8
  const MAX_LENGTH := 32

  /** A requested length outside [8, 32] falls back to 32. */
  function ClampLength(length: int): (n: int)
    ensures MIN_LENGTH <= n <= MAX_LENGTH
    ensures MIN_LENGTH <= length <= MAX_LENGTH ==> n == length
    ensures !(MIN_LENGTH <= length <= MAX_LENGTH) ==> n == MAX_LENGTH
  {
    if length < MIN_LENGTH || length > MAX_LENGTH then MAX_LENGTH else length
  }

  /** The number of random bytes drawn for a token of `length` characters: ceil(3 * length / 4). */
  function ByteCount(length: nat): (n: nat)
    ensures 3 * length <= 4 * n < 3 * length + 4
  {
    (3 * length + 3) / 4
  }

  /** The URL- and filename-safe alphabet of section 5 of RFC 4648. */
  predicate IsUrlSafeChar(c: char) {
    ('A' <= c <= 'Z') || ('a' <= c <= 'z') || ('0' <= c <= '9') || c == '-' || c == '_'
  }

  /** `strtr(s, '+/', '-_')` on one character. */
  function UrlSafe(c: char): (d: char)
    ensures IsStdChar(c) ==> IsUrlSafeChar(d)
    ensures c != '+' && c != '/' ==> d == c
  {
    if c == '+' then '-' else if c == '/' then '_' else c
  }

  function Translate(s: string): (t: string)
    ensures |t| == |s| && forall i :: 0 <= i < |s| ==> t[i] == UrlSafe(s[i])
  {
    seq(|s|, i requires 0 <= i < |s| => UrlSafe(s[i]))
  }

  /** `rtrim(s, '=')`: drops every trailing '='. */
  function TrimPadding(s: string): (r: string)
    ensures |r| <= |s| && r == s[..|r|]
    ensures r != [] ==> r[|r| - 1] != '='
    decreases |s|
  {
    if s != [] && s[|s| - 1] == '=' then TrimPadding(s[..|s| - 1]) else s
  }

  /** `substr(s, 0, n)` for n >= 0: the first n characters, or all of them. */
  function Prefix(s: string, n: nat): (r: string)
    ensures |r| == if n <= |s| then n else |s|
    ensures r == s[..|r|]
  {
    if n <= |s| then s[..n] else s
  }

  /**
   * `generateUrlSafeRandom`: encode the random bytes, make them URL-safe,
   * strip padding, cut to length. With ceil(3 * length / 4) bytes, as
   * `generateUrlSafeRandom` draws, the token has exactly `length` URL-safe characters.
   */
  function UrlSafeRandom(bytes: seq<byte>, length: nat): (t: string)
    ensures |t| <= length
    ensures |bytes| == ByteCount(length) ==> |t| == length && All(t, IsUrlSafeChar)
  {
    var t := Prefix(TrimPadding(Translate(Encode(bytes))), length);
    if |bytes| == ByteCount(length) then EncodedPrefixShape(bytes, length); t else t
  }

  /** Trailing '=' after a string that does not end in '=' are exactly what `rtrim` removes. */
  lemma {:induction false} TrimPaddingDropsPad(x: string, p: string)
    requires x == [] || x[|x| - 1] != '='
    requires forall i :: 0 <= i < |p| ==> p[i] == '='
    ensures TrimPadding(x + p) == x
    decreases |p|
  {
    if p != [] {
      assert (x + p)[..|x + p| - 1] == x + p[..|p| - 1];
      TrimPaddingDropsPad(x, p[..|p| - 1]);
    } else {
      assert x + p == x;
    }
  }

  /** ceil(3L/4) bytes always give at least L data characters. */
  lemma {:induction false} DataLengthCovers(length: nat)
    ensures DataLength(ByteCount(length)) >= length
    decreases length
  {
    if length >= 4 {
      DataLengthCovers(length - 4);
      assert ByteCount(length) == ByteCount(length - 4) + 3;
    }
  }

  /** Encoding ceil(3L/4) bytes, stripping the padding and cutting at L leaves exactly L URL-safe characters. */
  lemma EncodedPrefixShape(bytes: seq<byte>, length: nat)
    requires |bytes| == ByteCount(length)
    ensures |Prefix(TrimPadding(Translate(Encode(bytes))), length)| == length
    ensures All(Prefix(TrimPadding(Translate(Encode(bytes))), length), IsUrlSafeChar)
  {
    var d, p := EncodeSplit(bytes);
    var t := Translate(d);
    assert Translate(Encode(bytes)) == t + p;
    assert t == [] || t[|t| - 1] != '=' by {
      if t != [] {
        assert IsUrlSafeChar(t[|t| - 1]);
      }
    }
    TrimPaddingDropsPad(t, p);
    DataLengthCovers(length);
    var r := Prefix(TrimPadding(Translate(Encode(bytes))), length);
    assert r == t[..length];
    forall i | 0 <= i < |r|
      ensures IsUrlSafeChar(r[i])
    {
      assert r[i] == UrlSafe(d[i]);
    }
  }

  /** `mb_substr(s, -4)`: the last four characters, or the whole string when shorter. */
  function LastChars(s: string): (r: string)
    ensures |r| == if |s| < 4 then |s| else 4
    ensures r == s[|s| - |r|..]
  {
    if |s| <= 4 then s else s[|s| - 4..]
  }

  /** The rows left after deleting `t`; the others keep their order. */
  function Without(rows: seq<FilesyncToken>, t: FilesyncToken?): (r: seq<FilesyncToken>)
    ensures forall x :: x in r ==> x in rows && x != t
    ensures forall x :: x in rows && x != t ==> x in r
    ensures |r| <= |rows|
    ensures t == null ==> r == rows
    decreases |rows|
  {
    if rows == [] then []
    else (if rows[0] == t then [] else [rows[0]]) + Without(rows[1..], t)
  }

  /** `password_hash` never yields an empty string, and `password_verify` accepts what it produced. */
  ghost predicate SoundHash(hash: string -> string, matches: Matcher) {
    forall p :: hash(p) != "" && matches(p, hash(p))
  }

  /**
   * `generateToken`: clamp the length, draw the token, delete the current
   * row, persist a new row holding only the hash and the last four
   * characters, and return the plaintext.
   */
  method GenerateToken(store: TokenStore, length: int := MAX_LENGTH, bytes: seq<byte>, hash: string -> string, now: int)
    returns (raw: string)
    requires |bytes| == ByteCount(ClampLength(length))
    modifies store
    ensures raw == UrlSafeRandom(bytes, ClampLength(length))
    ensures |raw| == ClampLength(length) && All(raw, IsUrlSafeChar)
    ensures store.rows != []
    ensures store.rows[..|store.rows| - 1] == Without(old(store.rows), old(store.FindCurrent()))
    ensures old(store.FindCurrent()) != null ==> old(store.FindCurrent()) !in store.rows
    ensures var t := store.rows[|store.rows| - 1];
            && fresh(t) && t.tokenHash == hash(raw) && t.lastChars == Some(LastChars(raw))
            && t.createdAt == now && t.updatedAt == None && t.id == Some(old(store.nextId))
    ensures store.nextId == old(store.nextId) + 1
    ensures |old(store.rows)| <= 1 ==> |store.rows| == 1
  {
    var n := ClampLength(length);
    raw := UrlSafeRandom(bytes, n);
    var h := hash(raw);
    var last := LastChars(raw);
    var current := store.FindCurrent();
    if current != null {
      store.rows := Without(store.rows, current);
    }
    var entity := new FilesyncToken(h, Some(last), now);
    entity.id := Some(store.nextId);
    store.nextId := store.nextId + 1;
    store.rows := store.rows + [entity];
    assert store.rows[..|store.rows| - 1] == Without(old(store.rows), old(store.FindCurrent()));
  }

  /** After a rotation the new plaintext verifies, and it matches the new (last) row. */
  lemma RotatedTokenVerifies(rows: seq<FilesyncToken>, raw: string, hash: string -> string, matches: Matcher)
    requires rows != [] && rows[|rows| - 1].tokenHash == hash(raw)
    requires SoundHash(hash, matches)
    ensures Verifier.Verified(rows, raw, matches) == rows[|rows| - 1]
  {
    var n := |rows| - 1;
    assert HashesOf(rows)[n] == hash(raw);
    assert Hit(HashesOf(rows), n, raw, matches);
  }

  /**
   * `findTokenEntityByPlain`: the first row, in `findAll` order, whose hash
   * accepts the token; the scan returns as soon as it finds one.
   */
  method FindTokenEntityByPlain(store: TokenStore, token: string, matches: Matcher) returns (r: FilesyncToken?)
    ensures var k := FirstMatch(HashesOf(store.rows), token, matches);
            r == if k.Some? then store.rows[k.value] else null
    ensures r == null <==> forall i :: 0 <= i < |store.rows| ==> !matches(token, store.rows[i].tokenHash)
  {
    var rows := store.rows;
    var hs := HashesOf(rows);
    FirstMatchIsFirst(hs, token, matches);
    var i := 0;
    while i < |rows|
      invariant 0 <= i <= |rows|
      invariant forall j :: 0 <= j < i ==> !matches(token, hs[j])
    {
      if matches(token, rows[i].tokenHash) {
        FirstMatchAt(hs, token, matches, i);
        return rows[i];
      }
      i := i + 1;
    }
    return null;
  }

  /** `verifyToken`: true exactly when some stored hash accepts the token. */
  method VerifyToken(store: TokenStore, token: string, matches: Matcher) returns (ok: bool)
    ensures ok <==> exists i :: 0 <= i < |store.rows| && matches(token, store.rows[i].tokenHash)
  {
    var entity := FindTokenEntityByPlain(store, token, matches);
    ok := entity != null;
  }

  /** `getMaskedToken`: "xxxx..." and the current row's last characters, "****" when it has none. */
  function MaskedToken(store: TokenStore): (m: Option<string>)
    reads store, store.rows
    ensures m.None? <==> store.rows == []
    ensures m.Some? ==> |m.value| >= 7 && m.value[..7] == "xxxx..."
    ensures m.Some? ==> m.value[7..] == store.FindCurrent().lastChars.GetOr("****")
  {
    var current := store.FindCurrent();
    if current == null then None
    else Some("xxxx..." + current.lastChars.GetOr("****"))
  }

  /** After generating into a store of at most one row, the masked form shows the token's last four characters. */
  lemma MaskAfterGenerate(store: TokenStore, raw: string)
    requires |store.rows| == 1 && store.rows[0].lastChars == Some(LastChars(raw)) && |raw| >= 4
    ensures MaskedToken(store) == Some("xxxx..." + raw[|raw| - 4..])
  {
  }

  datatype SaveError = TooLong

  /**
   * `saveTokenCallback`: the trimmed value is hashed; a value that trims to
   * nothing clears the field, one longer than 32 characters is refused.
   */
  function SaveTokenCallback(value: string, hash: string -> string): (r: Result<string, SaveError>)
    ensures All(value, IsTrimChar) ==> r == Ok("")
    ensures !All(value, IsTrimChar) && |Trim(value)| > MAX_LENGTH ==> r == Err(TooLong)
    ensures !All(value, IsTrimChar) && |Trim(value)| <= MAX_LENGTH ==> r == Ok(hash(Trim(value)))
  {
    var token := Trim(value);
    if token == "" then Ok("")
    else if |token| > MAX_LENGTH then Err(TooLong)
    else Ok(hash(token))
  }

  /** `loadTokenCallback`: the stored hash is never shown in the form. */
  function LoadTokenCallback(value: string): (r: string)
    ensures |r| == 0
  {
    ""
  }
}
