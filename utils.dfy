/** The validators and the hourly rate limiter of lib/utils.ts. */
module Utils {
  import opened Wrappers
  import opened JsText

  // ---------------------------------------------------------------------
  // File size and type

  /** `MAX_FILE_SIZE`: 50 MB, the default when no override is configured. */
  const MaxFileSize: int := 50 * 1024 * 1024

  /** `formatFileSize(MAX_FILE_SIZE)` is "50 MB". */
  const FileSizeError: string := "File size exceeds maximum allowed size of 50 MB"

  /** The `{ valid, error }` objects returned by the validators. */
  datatype Validation = Valid | Invalid(error: string)

  /** `validateFileSize`: a file is too large exactly when its size exceeds
      `MAX_FILE_SIZE`; a file of exactly that size passes. */
  function ValidateFileSize(size: int): (r: Validation)
    ensures r.Valid? <==> size <= MaxFileSize
    ensures r.Invalid? ==> r.error == FileSizeError
  {
    if size > MaxFileSize then Invalid(FileSizeError) else Valid
  }

  /** `file.name.split('.').pop()?.toLowerCase()`: the lower-cased text after
      the last dot, or the whole lower-cased name when it has no dot. */
  function Extension(name: string): string
  {
    var parts := Split(name, '.');
    ToLower(parts[|parts| - 1])
  }

  /** Whether one entry of the allowed list accepts a file: an entry starting
      with '.' is compared with the extension; any other entry is compared
      with the whole MIME type and, failing that, its text before the first
      '/' is tried as a prefix of the MIME type. The entry itself is not
      lower-cased. */
  predicate EntryAccepts(entry: string, extension: string, mime: string)
  {
    if StartsWith(entry, ".") then extension == entry[1..]
    else mime == entry || StartsWith(mime, Split(entry, '/')[0])
  }

  /** `allowedTypes.some(...)`. */
  function SomeAccepts(allowed: seq<string>, extension: string, mime: string): (r: bool)
    ensures r <==> exists i :: 0 <= i < |allowed| && EntryAccepts(allowed[i], extension, mime)
  {
    if |allowed| == 0 then false
    else if EntryAccepts(allowed[0], extension, mime) then true
    else
      var r := SomeAccepts(allowed[1..], extension, mime);
      assert r ==> exists i :: 0 <= i < |allowed| && EntryAccepts(allowed[i], extension, mime) by {
        if r {
          var i :| 0 <= i < |allowed[1..]| && EntryAccepts(allowed[1..][i], extension, mime);
          assert allowed[i + 1] == allowed[1..][i];
        }
      }
      assert (exists i :: 0 <= i < |allowed| && EntryAccepts(allowed[i], extension, mime)) ==> r by {
        if exists i :: 0 <= i < |allowed| && EntryAccepts(allowed[i], extension, mime) {
          var i :| 0 <= i < |allowed| && EntryAccepts(allowed[i], extension, mime);
          assert i != 0;
          assert allowed[1..][i - 1] == allowed[i];
        }
      }
      r
  }

  /** The message listing the allowed types. */
  function FileTypeError(allowed: seq<string>): string
  {
    "Invalid file type. Allowed types: " + Join(allowed, ", ")
  }

  /** `validateFileType`: valid exactly when some allowed entry accepts the
      file's extension or lower-cased MIME type; otherwise the error lists
      the allowed entries. An empty list accepts nothing. */
  function ValidateFileType(name: string, mimeType: string, allowed: seq<string>): (r: Validation)
    ensures r.Valid? <==>
              exists i :: 0 <= i < |allowed| && EntryAccepts(allowed[i], Extension(name), ToLower(mimeType))
    ensures r.Invalid? ==> r.error == FileTypeError(allowed)
    ensures |allowed| == 0 ==> r.Invalid?
  {
    if SomeAccepts(allowed, Extension(name), ToLower(mimeType)) then Valid
    else Invalid(FileTypeError(allowed))
  }

  /** The extension compared with a ".x" entry is the lower-cased text after
      the name's last dot, or the whole lower-cased name when it has none. */
  lemma ExtensionAfterLastDot(name: string)
    ensures '.' !in name ==> Extension(name) == ToLower(name)
    ensures '.' in name ==>
              exists k :: 0 <= k < |name| && name[k] == '.' && '.' !in name[k + 1..]
                          && Extension(name) == ToLower(name[k + 1..])
  {
    var parts := Split(name, '.');
    var last := parts[|parts| - 1];
    SplitLast(name, '.');
    if '.' in name {
      var k := |name| - |last| - 1;
      assert name[k + 1..] == last;
      assert name[k] == '.' && '.' !in name[k + 1..] && Extension(name) == ToLower(name[k + 1..]);
    }
  }

  /** Adding entries to the allowed list, before or after the others, never
      rejects a file that was accepted. */
  lemma MoreEntriesAccept(name: string, mimeType: string, allowed: seq<string>, more: seq<string>)
    requires ValidateFileType(name, mimeType, allowed).Valid?
    ensures ValidateFileType(name, mimeType, allowed + more).Valid?
    ensures ValidateFileType(name, mimeType, more + allowed).Valid?
  {
    var ext, mime := Extension(name), ToLower(mimeType);
    var i :| 0 <= i < |allowed| && EntryAccepts(allowed[i], ext, mime);
    assert (allowed + more)[i] == allowed[i];
    assert (more + allowed)[|more| + i] == allowed[i];
  }

  /** A MIME entry accepts every type of its family: "image/png" admits any
      file whose lower-cased type starts with "image". */
  lemma MimeFamilyAccepts(name: string, mimeType: string, family: string, subtype: string)
    requires '/' !in family && !StartsWith(family, ".")
    requires StartsWith(ToLower(mimeType), family)
    ensures ValidateFileType(name, mimeType, [family + "/" + subtype]).Valid?
  {
    var entry := family + "/" + subtype;
    assert entry == family + ("/" + subtype);
    SplitHead(family, '/', "/" + subtype);
    assert Split(entry, '/')[0] == family;
    assert !StartsWith(entry, ".") by {
      if |family| > 0 {
        assert entry[0] == family[0];
      } else {
        assert entry[0] == '/';
      }
    }
    assert EntryAccepts(entry, Extension(name), ToLower(mimeType));
    assert [entry][0] == entry;
  }

  // ---------------------------------------------------------------------
  // File names

  /** The characters `sanitizeFilename` keeps: [a-zA-Z0-9._-]. */
  predicate SafeChar(c: char)
  {
    ('a' <= c <= 'z') || ('A' <= c <= 'Z') || ('0' <= c <= '9') || c == '.' || c == '_' || c == '-'
  }

  predicate AllSafe(s: string)
  {
    forall k :: 0 <= k < |s| ==> SafeChar(s[k])
  }

  predicate NoDoubleUnderscore(s: string)
  {
    forall k :: 0 <= k < |s| - 1 ==> !(s[k] == '_' && s[k + 1] == '_')
  }

  /** The characters of `s` other than '_', in order. */
  function NonUnderscores(s: string): string
  {
    if |s| == 0 then []
    else (if s[0] == '_' then [] else [s[0]]) + NonUnderscores(s[1..])
  }

  /** The characters of `s` except each '_' that directly follows another
      '_' (`afterUnderscore` says whether the character before `s` was one):
      every run of underscores keeps only its first. */
  function KeepFirstUnderscores(s: string, afterUnderscore: bool): string
  {
    if |s| == 0 then []
    else (if afterUnderscore && s[0] == '_' then [] else [s[0]])
         + KeepFirstUnderscores(s[1..], s[0] == '_')
  }

  /** `replace(/[^a-zA-Z0-9._-]/g, '_')`. */
  function ReplaceUnsafe(s: string): (r: string)
    ensures |r| == |s| && AllSafe(r)
    ensures forall k :: 0 <= k < |s| ==> r[k] == if SafeChar(s[k]) then s[k] else '_'
  {
    seq(|s|, k requires 0 <= k < |s| => if SafeChar(s[k]) then s[k] else '_')
  }

  /** `replace(/_{2,}/g, '_')`: every run of underscores becomes one. It only
      removes underscores, keeps the first character, leaves no two adjacent
      underscores, and changes nothing exactly when there were none. */
  function CollapseUnderscores(s: string): (r: string)
    ensures |r| <= |s|
    ensures |s| > 0 ==> |r| > 0 && r[0] == s[0]
    ensures NoDoubleUnderscore(r)
    ensures NonUnderscores(r) == NonUnderscores(s)
    ensures AllSafe(s) ==> AllSafe(r)
    ensures r == s <==> NoDoubleUnderscore(s)
  {
    if |s| == 0 then []
    else if |s| >= 2 && s[0] == '_' && s[1] == '_' then
      var r := CollapseUnderscores(s[1..]);
      assert !NoDoubleUnderscore(s);
      r
    else
      var rest := CollapseUnderscores(s[1..]);
      var r := [s[0]] + rest;
      assert r[1..] == rest;
      assert NoDoubleUnderscore(r) by {
        forall k | 0 <= k < |r| - 1 ensures !(r[k] == '_' && r[k + 1] == '_') {
          if k > 0 {
            assert r[k] == rest[k - 1] && r[k + 1] == rest[k];
          }
        }
      }
      assert NoDoubleUnderscore(s) ==> NoDoubleUnderscore(s[1..]) by {
        if NoDoubleUnderscore(s) {
          forall k | 0 <= k < |s[1..]| - 1 ensures !(s[1..][k] == '_' && s[1..][k + 1] == '_') {
            assert s[1..][k] == s[k + 1] && s[1..][k + 1] == s[k + 2];
          }
        }
      }
      assert NoDoubleUnderscore(s[1..]) ==> NoDoubleUnderscore(s);
      assert r == s <==> rest == s[1..] by {
        assert s == [s[0]] + s[1..];
      }
      r
  }


  /** Collapsing replaces each run of underscores by exactly one: it keeps
      every character except an '_' that follows an '_'. */
  lemma {:induction false} CollapseKeepsFirstOfRuns(s: string)
    ensures CollapseUnderscores(s) == KeepFirstUnderscores(s, false)
    ensures |s| > 0 && s[0] == '_' ==> KeepFirstUnderscores(s, true) == CollapseUnderscores(s)[1..]
    ensures |s| == 0 || s[0] != '_' ==> KeepFirstUnderscores(s, true) == CollapseUnderscores(s)
  {
    if |s| > 0 {
      CollapseKeepsFirstOfRuns(s[1..]);
      if s[0] == '_' && |s| >= 2 && s[1] == '_' {
        var c := CollapseUnderscores(s[1..]);
        assert c == [c[0]] + c[1..];
      }
    }
  }
  /** `substring(0, n)`. */
  function Truncate(s: string, n: nat): (r: string)
    ensures |r| <= n && |r| <= |s| && r == s[..|r|]
    ensures |s| <= n ==> r == s
  {
    if |s| <= n then s else s[..n]
  }

  /** `sanitizeFilename`: only [a-zA-Z0-9._-], no two underscores in a row,
      at most 200 characters. */
  function SanitizeFilename(filename: string): (r: string)
    ensures AllSafe(r)
    ensures NoDoubleUnderscore(r)
    ensures |r| <= 200
  {
    var c := CollapseUnderscores(ReplaceUnsafe(filename));
    var r := Truncate(c, 200);
    assert forall k :: 0 <= k < |r| ==> r[k] == c[k];
    r
  }

  /** Sanitising a sanitised name changes nothing. */
  lemma SanitizeIdempotent(filename: string)
    ensures SanitizeFilename(SanitizeFilename(filename)) == SanitizeFilename(filename)
  {
    var s := SanitizeFilename(filename);
    assert ReplaceUnsafe(s) == s;
    assert CollapseUnderscores(s) == s;
  }

  // ---------------------------------------------------------------------
  // Rate limiting

  /** `RATE_LIMIT_PER_HOUR`: 100, the default when no override is configured. */
  const RateLimitPerHour: int := 100

  /** The length of a window, one hour in milliseconds. */
  const RateWindow: int := 3600000

  /** `RateLimitData`. */
  datatype RateRecord = RateRecord(count: int, resetTime: int)

  /** What the rate-limit key of localStorage holds: storage that throws on
      access, nothing, text that does not parse, or a record. */
  datatype Stored = Unavailable | Missing | Unparsable | Saved(record: RateRecord)

  /** The result of `checkRateLimit`. */
  datatype RateStatus = RateStatus(allowed: bool, remaining: int, resetIn: int)

  /** The record both operations start from: the stored one, or a fresh
      window when nothing is stored; a window whose reset time has come is
      replaced by a fresh one that starts at `now`. */
  function CurrentWindow(stored: Stored, now: int): (r: RateRecord)
    requires stored.Missing? || stored.Saved?
    ensures stored.Missing? ==> r == RateRecord(0, now + RateWindow)
    ensures stored.Saved? && now >= stored.record.resetTime ==> r == RateRecord(0, now + RateWindow)
    ensures stored.Saved? && now < stored.record.resetTime ==> r == stored.record
    ensures now < r.resetTime
  {
    if stored.Missing? || now >= stored.record.resetTime then RateRecord(0, now + RateWindow)
    else stored.record
  }

  /** What `checkRateLimit` returns: allowed exactly while the current
      window's count is below the limit, with the remaining allowance (0 when
      refused) and the time to the window's end; when storage fails, the full
      allowance and a whole window. */
  function RateCheck(stored: Stored, now: int): (r: RateStatus)
    ensures stored.Unavailable? || stored.Unparsable? ==>
              r == RateStatus(true, RateLimitPerHour, RateWindow)
    ensures stored.Missing? || stored.Saved? ==>
              var w := CurrentWindow(stored, now);
              && (r.allowed <==> w.count < RateLimitPerHour)
              && r.remaining == (if r.allowed then RateLimitPerHour - w.count else 0)
              && r.resetIn == w.resetTime - now
              && r.resetIn > 0
  {
    if stored.Unavailable? || stored.Unparsable? then RateStatus(true, RateLimitPerHour, RateWindow)
    else
      var w := CurrentWindow(stored, now);
      if w.count >= RateLimitPerHour then RateStatus(false, 0, w.resetTime - now)
      else RateStatus(true, RateLimitPerHour - w.count, w.resetTime - now)
  }

  /** What `incrementRateLimit` leaves in storage: one more use in the
      current window, a fresh window with one use when the old one expired,
      and nothing stored when storage fails. */
  function RateIncrement(stored: Stored, now: int): (r: Stored)
    ensures stored.Unavailable? || stored.Unparsable? ==> r == stored
    ensures stored.Missing? || stored.Saved? ==>
              var w := CurrentWindow(stored, now);
              r == Saved(RateRecord(w.count + 1, w.resetTime))
  {
    if stored.Unavailable? || stored.Unparsable? then stored
    else
      var w := CurrentWindow(stored, now);
      Saved(RateRecord(w.count + 1, w.resetTime))
  }

  /** The localStorage entry the two operations read and write. */
  class RateLimitStore {
    var stored: Stored

    constructor(stored: Stored)
      ensures this.stored == stored
    {
      this.stored := stored;
    }

    /** `checkRateLimit()` at time `now`. */
    method CheckRateLimit(now: int) returns (r: RateStatus)
      ensures r == RateCheck(stored, now)
    {
      if stored.Unavailable? || stored.Unparsable? {
        return RateStatus(true, RateLimitPerHour, RateWindow);
      }
      var data := if stored.Saved? then stored.record else RateRecord(0, now + RateWindow);
      if now >= data.resetTime {
        data := RateRecord(0, now + RateWindow);
      }
      var remaining := RateLimitPerHour - data.count;
      var resetIn := data.resetTime - now;
      if data.count >= RateLimitPerHour {
        return RateStatus(false, 0, resetIn);
      }
      return RateStatus(true, remaining, resetIn);
    }

    /** `incrementRateLimit()` at time `now`. */
    method IncrementRateLimit(now: int)
      modifies this
      ensures stored == RateIncrement(old(stored), now)
    {
      if stored.Unavailable? || stored.Unparsable? {
        return;
      }
      var data := if stored.Saved? then stored.record else RateRecord(0, now + RateWindow);
      if now >= data.resetTime {
        data := RateRecord(1, now + RateWindow);
      } else {
        data := data.(count := data.count + 1);
      }
      stored := Saved(data);
    }
  }

  /** `k` uses recorded at times within one window. */
  function Increments(stored: Stored, times: seq<int>): Stored
  {
    if |times| == 0 then stored
    else RateIncrement(Increments(stored, times[..|times| - 1]), times[|times| - 1])
  }

  /** Uses recorded before a window ends add up in that window, and the
      check refuses exactly once the count has reached the limit. */
  lemma {:induction false} UsesAccumulate(rec: RateRecord, times: seq<int>, now: int)
    requires forall j :: 0 <= j < |times| ==> times[j] < rec.resetTime
    requires now < rec.resetTime
    ensures Increments(Saved(rec), times) == Saved(RateRecord(rec.count + |times|, rec.resetTime))
    ensures RateCheck(Increments(Saved(rec), times), now).allowed <==> rec.count + |times| < RateLimitPerHour
  {
    if |times| > 0 {
      UsesAccumulate(rec, times[..|times| - 1], now);
    }
  }

  /** A window that has expired is forgotten: the check starts again from a
      zero count and the next use opens a new window with count 1. */
  lemma ExpiredWindowResets(rec: RateRecord, now: int)
    requires now >= rec.resetTime
    ensures RateCheck(Saved(rec), now) == RateStatus(0 < RateLimitPerHour, RateLimitPerHour, RateWindow)
    ensures RateIncrement(Saved(rec), now) == Saved(RateRecord(1, now + RateWindow))
  {
  }

  // ---------------------------------------------------------------------
  // The guard every tool page runs before calling a library operation

  /** What a page handler does with its inputs: refuse with an error message,
      or go on to the operation. */
  datatype Decision = Refuse(message: string) | Proceed

  /** `Math.ceil(resetIn / 60000)`: the whole minutes that cover `resetIn`. */
  function MinutesUntilReset(resetIn: int): (m: int)
    ensures (m - 1) * 60000 < resetIn <= m * 60000
  {
    -((-resetIn) / 60000)
  }

  /** The rate-limit check of the tool pages: refused exactly when the
      limiter refuses, with the minutes left in the window. */
  function RateLimitGate(status: RateStatus): (d: Decision)
    ensures d.Proceed? <==> status.allowed
    ensures !status.allowed ==>
              d.message == "Rate limit exceeded. Please try again in "
                           + IntToDecimal(MinutesUntilReset(status.resetIn)) + " minutes."
  {
    if !status.allowed then
      Refuse("Rate limit exceeded. Please try again in "
             + IntToDecimal(MinutesUntilReset(status.resetIn)) + " minutes.")
    else Proceed
  }
}
