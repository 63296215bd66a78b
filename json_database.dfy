/**
 * The flat record store of json_database.py: a list of user records and a
 * list of video records, each loaded from and saved back to a JSON file on
 * every call. Here the two lists are fields of the database object and the
 * load/save round trip through the file is the identity.
 */
module JsonDatabase {
  import opened Wrappers
  import opened Strings

  /** The JSON scalars the records hold. */
  datatype Value = Null | Bool(b: bool) | Int(i: int) | Str(s: string)

  /** A record is a JSON object: a dict from field names to values. */
  type Record = map<string, Value>

  /** `record.get(key, default)`. */
  function Get(r: Record, key: string, default: Value): Value {
    if key in r then r[key] else default
  }

  /** The fields create_video copies from its argument, each with the default used when it is missing. */
  const VideoDefaults: map<string, Value> := map[
    "youtube_id" := Str(""),
    "title" := Str("Unknown"),
    "url" := Str(""),
    "duration" := Int(0),
    "thumbnail_url" := Str(""),
    "uploader" := Str("Unknown"),
    "file_size" := Int(0),
    "download_success" := Bool(false),
    "uploaded_to_drive" := Bool(false),
    "drive_file_id" := Null,
    "drive_folder_id" := Null,
    "uploaded_to_youtube" := Bool(false),
    "youtube_upload_id" := Null,
    "user_id" := Null
  ]

  /** The record create_video builds for the `id`-th video. */
  function NewVideo(id: int, data: Record, downloadDate: string): Record {
    (map k | k in VideoDefaults :: Get(data, k, VideoDefaults[k]))["id" := Int(id)]["download_date" := Str(downloadDate)]
  }

  /**
   * A new video record has exactly the schema's fields: `id` and
   * `download_date` are assigned, every other field is copied when given and
   * defaulted when missing, and keys outside the schema are dropped.
   */
  lemma NewVideoFields(id: int, data: Record, downloadDate: string)
    ensures NewVideo(id, data, downloadDate).Keys == VideoDefaults.Keys + {"id", "download_date"}
    ensures NewVideo(id, data, downloadDate)["id"] == Int(id) && NewVideo(id, data, downloadDate)["download_date"] == Str(downloadDate)
    ensures forall k :: k in VideoDefaults && k in data ==> NewVideo(id, data, downloadDate)[k] == data[k]
    ensures forall k :: k in VideoDefaults && k !in data ==> NewVideo(id, data, downloadDate)[k] == VideoDefaults[k]
  {
    assert "id" !in VideoDefaults && "download_date" !in VideoDefaults;
  }

  /** The stated defaults for the descriptive fields: title 'Unknown' and file size 0. */
  lemma NewVideoDefaults(id: int, data: Record, downloadDate: string)
    ensures "title" !in data ==> NewVideo(id, data, downloadDate)["title"] == Str("Unknown")
    ensures "file_size" !in data ==> NewVideo(id, data, downloadDate)["file_size"] == Int(0)
  {
    if "title" !in data { NewVideoDefault(id, data, downloadDate, "title"); }
    if "file_size" !in data { NewVideoDefault(id, data, downloadDate, "file_size"); }
  }

  /** Every upload flag defaults to False. */
  lemma NewVideoFlagsDefaultFalse(id: int, data: Record, downloadDate: string)
    ensures "download_success" !in data ==> NewVideo(id, data, downloadDate)["download_success"] == Bool(false)
    ensures "uploaded_to_drive" !in data ==> NewVideo(id, data, downloadDate)["uploaded_to_drive"] == Bool(false)
    ensures "uploaded_to_youtube" !in data ==> NewVideo(id, data, downloadDate)["uploaded_to_youtube"] == Bool(false)
  {
    if "download_success" !in data { NewVideoDefault(id, data, downloadDate, "download_success"); }
    if "uploaded_to_drive" !in data { NewVideoDefault(id, data, downloadDate, "uploaded_to_drive"); }
    if "uploaded_to_youtube" !in data { NewVideoDefault(id, data, downloadDate, "uploaded_to_youtube"); }
  }

  /** Every external id defaults to None. */
  lemma NewVideoIdsDefaultNull(id: int, data: Record, downloadDate: string)
    ensures "drive_file_id" !in data ==> NewVideo(id, data, downloadDate)["drive_file_id"] == Null
    ensures "drive_folder_id" !in data ==> NewVideo(id, data, downloadDate)["drive_folder_id"] == Null
    ensures "youtube_upload_id" !in data ==> NewVideo(id, data, downloadDate)["youtube_upload_id"] == Null
    ensures "user_id" !in data ==> NewVideo(id, data, downloadDate)["user_id"] == Null
  {
    if "drive_file_id" !in data { NewVideoDefault(id, data, downloadDate, "drive_file_id"); }
    if "drive_folder_id" !in data { NewVideoDefault(id, data, downloadDate, "drive_folder_id"); }
    if "youtube_upload_id" !in data { NewVideoDefault(id, data, downloadDate, "youtube_upload_id"); }
    if "user_id" !in data { NewVideoDefault(id, data, downloadDate, "user_id"); }
  }

  /** A schema field missing from the argument takes its default. */
  lemma NewVideoDefault(id: int, data: Record, downloadDate: string, k: string)
    requires k in VideoDefaults && k !in data
    ensures k in NewVideo(id, data, downloadDate) && NewVideo(id, data, downloadDate)[k] == VideoDefaults[k]
  {
    assert k != "id" && k != "download_date" by {
      assert "id" !in VideoDefaults && "download_date" !in VideoDefaults;
    }
  }

  /** Every record carries `key`, as the lookups `record[key]` demand. */
  ghost predicate AllHave(records: seq<Record>, key: string) {
    forall i :: 0 <= i < |records| ==> key in records[i]
  }

  /** The records' ids are 1, 2, ..., n in list order. */
  ghost predicate IdsSequential(records: seq<Record>) {
    forall i :: 0 <= i < |records| ==> "id" in records[i] && records[i]["id"] == Int(i + 1)
  }

  /** The position of the first record whose `key` equals `value`. */
  ghost function FirstIndex(records: seq<Record>, key: string, value: Value): (r: Option<nat>)
    requires AllHave(records, key)
    ensures r.Some? ==> r.value < |records| && records[r.value][key] == value
    ensures r.Some? ==> forall j :: 0 <= j < r.value ==> records[j][key] != value
    ensures r.None? ==> forall j :: 0 <= j < |records| ==> records[j][key] != value
  {
    if records == [] then None
    else if records[0][key] == value then Some(0)
    else match FirstIndex(records[1..], key, value)
      case None => None
      case Some(i) => Some(i + 1)
  }

  /** The record at the first index matching, if any. */
  ghost function FirstMatch(records: seq<Record>, key: string, value: Value): Option<Record>
    requires AllHave(records, key)
  {
    match FirstIndex(records, key, value)
    case None => None
    case Some(i) => Some(records[i])
  }

  /** With sequential ids, looking up id k finds the k-th record created. */
  lemma LookupSequentialId(records: seq<Record>, k: int)
    requires IdsSequential(records) && 1 <= k <= |records|
    ensures AllHave(records, "id")
    ensures FirstIndex(records, "id", Int(k)) == Some(k - 1)
  {
    assert records[k - 1]["id"] == Int(k);
  }

  /** The early-return scan shared by get_user_by_id, get_user_by_email and get_video_by_id. */
  method FindFirst(records: seq<Record>, key: string, value: Value) returns (r: Option<Record>)
    requires AllHave(records, key)
    ensures r == FirstMatch(records, key, value)
  {
    var i := 0;
    while i < |records|
      invariant 0 <= i <= |records|
      invariant forall j :: 0 <= j < i ==> records[j][key] != value
    {
      if records[i][key] == value {
        return Some(records[i]);
      }
      i := i + 1;
    }
    return None;
  }

  // ---------------------------------------------------------------------------
  // Ordering by download date

  /** `video.get('download_date', '')`, the sort key (only string dates are modelled). */
  function DateKey(v: Record): string {
    match Get(v, "download_date", Str(""))
    case Str(s) => s
    case _ => ""
  }

  /** Ordered newest first: download dates never increase along the list. */
  ghost predicate NewestFirst(s: seq<Record>) {
    forall i, j :: 0 <= i < j < |s| ==> LessOrEqual(DateKey(s[j]), DateKey(s[i]))
  }

  /** Insert `x` before the first record not newer than it (so equal dates keep their order). */
  function InsertByDate(x: Record, s: seq<Record>): (r: seq<Record>)
    ensures multiset(r) == multiset(s) + multiset{x}
    ensures |r| == |s| + 1
  {
    if s == [] || LessOrEqual(DateKey(s[0]), DateKey(x)) then [x] + s
    else
      assert s == [s[0]] + s[1..];
      [s[0]] + InsertByDate(x, s[1..])
  }

  lemma {:induction false} InsertByDateSorted(x: Record, s: seq<Record>)
    requires NewestFirst(s)
    ensures NewestFirst(InsertByDate(x, s))
  {
    if s == [] {
    } else if LessOrEqual(DateKey(s[0]), DateKey(x)) {
      forall j | 0 <= j < |s| ensures LessOrEqual(DateKey(s[j]), DateKey(x)) {
        if j > 0 {
          LessOrEqualTransitive(DateKey(s[j]), DateKey(s[0]), DateKey(x));
        }
      }
      PrependSorted(x, s);
    } else {
      var t := InsertByDate(x, s[1..]);
      InsertByDateSorted(x, s[1..]);
      LessOrEqualTotal(DateKey(s[0]), DateKey(x));
      InsertNotNewer(x, s, t);
      PrependSorted(s[0], t);
      assert InsertByDate(x, s) == [s[0]] + t;
    }
  }

  /** A record not older than every record of a newest-first list can go in front of it. */
  lemma PrependSorted(x: Record, s: seq<Record>)
    requires NewestFirst(s)
    requires forall j :: 0 <= j < |s| ==> LessOrEqual(DateKey(s[j]), DateKey(x))
    ensures NewestFirst([x] + s)
  {
    var r := [x] + s;
    forall i, j | 0 <= i < j < |r| ensures LessOrEqual(DateKey(r[j]), DateKey(r[i])) {
      assert r[j] == s[j - 1];
      if i > 0 {
        assert r[i] == s[i - 1];
      }
    }
  }

  /** Inserting a record older than the head into the tail keeps every record no newer than the head. */
  lemma InsertNotNewer(x: Record, s: seq<Record>, t: seq<Record>)
    requires s != [] && NewestFirst(s) && LessOrEqual(DateKey(x), DateKey(s[0]))
    requires multiset(t) == multiset(s[1..]) + multiset{x}
    ensures forall j :: 0 <= j < |t| ==> LessOrEqual(DateKey(t[j]), DateKey(s[0]))
  {
    forall j | 0 <= j < |t| ensures LessOrEqual(DateKey(t[j]), DateKey(s[0])) {
      assert t[j] in multiset(t);
      if t[j] != x {
        assert t[j] in multiset(s[1..]);
        var k :| 0 <= k < |s[1..]| && s[1..][k] == t[j];
        assert s[k + 1] == t[j];
      }
    }
  }

  /** `sort(key=download_date, reverse=True)`: a stable sort, newest first. */
  function SortByDate(s: seq<Record>): (r: seq<Record>)
    ensures multiset(r) == multiset(s)
    ensures NewestFirst(r)
  {
    if s == [] then []
    else
      var rest := SortByDate(s[1..]);
      InsertByDateSorted(s[0], rest);
      assert s == [s[0]] + s[1..];
      InsertByDate(s[0], rest)
  }

  /** `[video for video in videos if video.get('user_id') == user_id]`. */
  function OwnedBy(videos: seq<Record>, userId: Value): (r: seq<Record>)
    ensures forall v :: v in r <==> v in videos && Get(v, "user_id", Null) == userId
    ensures forall v :: v in r ==> multiset(r)[v] == multiset(videos)[v]
  {
    if videos == [] then []
    else
      assert videos == [videos[0]] + videos[1..];
      (if Get(videos[0], "user_id", Null) == userId then [videos[0]] else []) + OwnedBy(videos[1..], userId)
  }

  // ---------------------------------------------------------------------------

  class JSONDatabase {
    /** The contents of users.json. */
    var users: seq<Record>
    /** The contents of videos.json. */
    var videos: seq<Record>

    /** Every user has an id and an email, every video an id: the keys the lookups index. */
    ghost predicate Valid()
      reads this
    {
      AllHave(users, "id") && AllHave(users, "email") && AllHave(videos, "id")
    }

    /**
     * Open the database in the data directory: a file that exists keeps its
     * contents (`usersFile`, `videosFile`), a missing one starts as an empty list.
     */
    constructor (usersFile: Option<seq<Record>>, videosFile: Option<seq<Record>>)
      requires usersFile.Some? ==> AllHave(usersFile.value, "id") && AllHave(usersFile.value, "email")
      requires videosFile.Some? ==> AllHave(videosFile.value, "id")
      ensures Valid()
      ensures users == (if usersFile.Some? then usersFile.value else [])
      ensures videos == (if videosFile.Some? then videosFile.value else [])
      ensures usersFile.None? ==> IdsSequential(users)
      ensures videosFile.None? ==> IdsSequential(videos)
    {
      users := if usersFile.Some? then usersFile.value else [];
      videos := if videosFile.Some? then videosFile.value else [];
    }

    method GetUserById(userId: Value) returns (r: Option<Record>)
      requires Valid()
      ensures r == FirstMatch(users, "id", userId)
      ensures IdsSequential(users) && userId.Int? && 1 <= userId.i <= |users| ==> r == Some(users[userId.i - 1])
    {
      r := FindFirst(users, "id", userId);
      if IdsSequential(users) && userId.Int? && 1 <= userId.i <= |users| {
        LookupSequentialId(users, userId.i);
      }
    }

    method GetUserByEmail(email: string) returns (r: Option<Record>)
      requires Valid()
      ensures r == FirstMatch(users, "email", Str(email))
      ensures r.None? <==> forall i :: 0 <= i < |users| ==> users[i]["email"] != Str(email)
    {
      r := FindFirst(users, "email", Str(email));
    }

    /**
     * create_user: the existing record when the email is taken (nothing
     * saved), otherwise a new record with id len+1 appended.
     */
    method CreateUser(username: string, email: string, createdAt: string) returns (u: Record)
      requires Valid()
      modifies this
      ensures Valid() && videos == old(videos)
      ensures FirstMatch(old(users), "email", Str(email)).Some? ==>
        u == FirstMatch(old(users), "email", Str(email)).value && users == old(users)
      ensures FirstMatch(old(users), "email", Str(email)).None? ==>
        && u == map["id" := Int(|old(users)| + 1), "username" := Str(username), "email" := Str(email), "created_at" := Str(createdAt)]
        && users == old(users) + [u]
      ensures IdsSequential(old(users)) ==> IdsSequential(users)
    {
      var existing := FindFirst(users, "email", Str(email));
      if existing.Some? {
        return existing.value;
      }
      u := map["id" := Int(|users| + 1), "username" := Str(username), "email" := Str(email), "created_at" := Str(createdAt)];
      users := users + [u];
    }

    method GetVideoById(videoId: Value) returns (r: Option<Record>)
      requires Valid()
      ensures r == FirstMatch(videos, "id", videoId)
      ensures IdsSequential(videos) && videoId.Int? && 1 <= videoId.i <= |videos| ==> r == Some(videos[videoId.i - 1])
    {
      r := FindFirst(videos, "id", videoId);
      if IdsSequential(videos) && videoId.Int? && 1 <= videoId.i <= |videos| {
        LookupSequentialId(videos, videoId.i);
      }
    }

    /** create_video: append a new record with id len+1, the given fields and their defaults. */
    method CreateVideo(data: Record, downloadDate: string) returns (v: Record)
      requires Valid()
      modifies this
      ensures Valid() && users == old(users)
      ensures v == NewVideo(|old(videos)| + 1, data, downloadDate)
      ensures videos == old(videos) + [v]
      ensures IdsSequential(old(videos)) ==> IdsSequential(videos)
    {
      v := NewVideo(|videos| + 1, data, downloadDate);
      videos := videos + [v];
    }

    /**
     * update_video: on the first record with this id, set each given key;
     * every other record and field is left as it was. None when no record has the id.
     */
    method UpdateVideo(videoId: Value, updates: Record) returns (r: Option<Record>)
      requires Valid()
      modifies this
      ensures Valid() && users == old(users)
      ensures FirstIndex(old(videos), "id", videoId).None? ==> r.None? && videos == old(videos)
      ensures FirstIndex(old(videos), "id", videoId).Some? ==>
        var i := FirstIndex(old(videos), "id", videoId).value;
        && videos == old(videos)[i := old(videos)[i] + updates]
        && r == Some(videos[i])
      ensures IdsSequential(old(videos)) && "id" !in updates ==> IdsSequential(videos)
    {
      var i := 0;
      while i < |videos|
        invariant 0 <= i <= |videos|
        invariant forall j :: 0 <= j < i ==> videos[j]["id"] != videoId
      {
        if videos[i]["id"] == videoId {
          var record := videos[i];
          var pending := updates.Keys;
          while pending != {}
            invariant pending <= updates.Keys
            invariant record.Keys == videos[i].Keys + (updates.Keys - pending)
            invariant forall k :: k in record ==>
              record[k] == if k in updates && k !in pending then updates[k] else videos[i][k]
            decreases pending
          {
            var key :| key in pending;
            record := record[key := updates[key]];
            pending := pending - {key};
          }
          assert record == videos[i] + updates;
          videos := videos[i := record];
          return Some(videos[i]);
        }
        i := i + 1;
      }
      return None;
    }

    /** get_user_videos: this user's videos, newest first. */
    function GetUserVideos(userId: Value): (r: seq<Record>)
      reads this
      ensures multiset(r) == multiset(OwnedBy(videos, userId))
      ensures forall v :: v in r <==> v in videos && Get(v, "user_id", Null) == userId
      ensures NewestFirst(r)
    {
      SortByDate(OwnedBy(videos, userId))
    }

    /** get_all_videos: every video, newest first. */
    function GetAllVideos(): (r: seq<Record>)
      reads this
      ensures multiset(r) == multiset(videos)
      ensures NewestFirst(r)
    {
      SortByDate(videos)
    }
  }
}
