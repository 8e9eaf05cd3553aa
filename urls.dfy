/** The unique URL handed out by `get_unique_url` and the user id that
    `serve_form` takes back out of a path (server/api.py). */
module Urls {
  import opened PyStr

  const UserPath: string := "/user/"

  /** `BASE_URL + "/user/" + unique_url` for the freshly drawn id `id`. */
  function UniqueUrl(base: string, id: string): (url: string)
    ensures base <= url && url[|base|..] == UserPath + id
  {
    base + UserPath + id
  }

  /** `user_id.split("/")[-1]`: the text after the last '/', or the whole
      text when it has none. */
  function ServeFormUserId(userId: string): (segment: string)
    ensures '/' !in segment
    ensures |segment| <= |userId| && segment == userId[|userId| - |segment|..]
    ensures |segment| < |userId| ==> userId[|userId| - |segment| - 1] == '/'
  {
    SplitLastIsSuffix(userId, '/');
    var parts := Split(userId, '/');
    parts[|parts| - 1]
  }

  /** The user id is recovered from the unique URL it was issued in. */
  lemma ServeFormRecoversId(base: string, id: string)
    requires '/' !in id
    ensures ServeFormUserId(UniqueUrl(base, id)) == id
  {
    assert UniqueUrl(base, id) == (base + "/user") + ['/'] + id;
    SplitAtSep(base + "/user", id, '/');
    SplitWithoutSep(id, '/');
  }

  /** Taking the last segment a second time changes nothing. */
  lemma ServeFormIdempotent(userId: string)
    ensures ServeFormUserId(ServeFormUserId(userId)) == ServeFormUserId(userId)
  {
    var segment := ServeFormUserId(userId);
    SplitWithoutSep(segment, '/');
  }

  predicate IsHexDigit(c: char) {
    '0' <= c <= '9' || 'a' <= c <= 'f'
  }

  /** `str(uuid.uuid4())`: 32 lower-case hex digits grouped 8-4-4-4-12. */
  predicate IsUuidText(id: string) {
    |id| == 36 &&
    forall i :: 0 <= i < 36 ==>
      if i == 8 || i == 13 || i == 18 || i == 23 then id[i] == '-' else IsHexDigit(id[i])
  }

  /** Every id that `get_unique_url` issues comes back out of its URL. */
  lemma IssuedIdRecovered(base: string, id: string)
    requires IsUuidText(id)
    ensures ServeFormUserId(UniqueUrl(base, id)) == id
  {
    ServeFormRecoversId(base, id);
  }
}
