/** Pure string work of the storage service: the blank-name guard used by
    `load` and `delete`, and the derivation of a stored file's name from the
    uploaded file's original name and a random UUID in `store`. */
module FileNaming {
  import opened Wrappers

  // ---------------------------------------------------------------------------
  // Java String.trim() and the blank-name guard
  // ---------------------------------------------------------------------------

  /** A character that Java's String.trim() strips: any code point up to U+0020. */
  predicate IsTrimmed(c: char) {
    c <= ' '
  }

  /** The part of `s` left after dropping its leading trimmed characters. */
  function TrimLeading(s: string): (r: string)
    ensures |r| <= |s| && r == s[|s| - |r|..]
    ensures forall i :: 0 <= i < |s| - |r| ==> IsTrimmed(s[i])
    ensures r == [] || !IsTrimmed(r[0])
  {
    if |s| > 0 && IsTrimmed(s[0]) then TrimLeading(s[1..]) else s
  }

  /** The part of `s` left after dropping its trailing trimmed characters. */
  function TrimTrailing(s: string): (r: string)
    ensures |r| <= |s| && r == s[..|r|]
    ensures forall i :: |r| <= i < |s| ==> IsTrimmed(s[i])
    ensures r == [] || !IsTrimmed(r[|r| - 1])
  {
    if |s| > 0 && IsTrimmed(s[|s| - 1]) then TrimTrailing(s[..|s| - 1]) else s
  }

  /** Java's String.trim(): leading, then trailing characters up to U+0020 removed. */
  function Trim(s: string): string {
    TrimTrailing(TrimLeading(s))
  }

  /** The guard `fileName == null || fileName.trim().isEmpty()` of `load` and `delete`. */
  predicate IsBlank(name: Option<string>) {
    name.None? || Trim(name.value) == ""
  }

  /** A name is blank exactly when it is null or every one of its characters is
      at most U+0020 (the empty name included). */
  lemma BlankIffAllTrimmed(name: Option<string>)
    ensures IsBlank(name) <==> name.None? || forall i :: 0 <= i < |name.value| ==> IsTrimmed(name.value[i])
  {
  }

  // ---------------------------------------------------------------------------
  // Extension of the uploaded file's original name
  // ---------------------------------------------------------------------------

  /** The extension used when the original name has none, or is null. */
  const DefaultExtension: string := ".png"

  /** Java's String.lastIndexOf(c): the index of the last `c` in `s`, or -1. */
  function LastIndexOf(s: string, c: char): (r: int)
    ensures -1 <= r < |s|
    ensures r == -1 <==> c !in s
    ensures 0 <= r ==> s[r] == c && forall j :: r < j < |s| ==> s[j] != c
  {
    if |s| == 0 then -1
    else if s[|s| - 1] == c then |s| - 1
    else
      assert s == s[..|s| - 1] + [s[|s| - 1]];
      LastIndexOf(s[..|s| - 1], c)
  }

  /** The extension `store` gives a stored file: ".png" unless the original
      name is present and contains '.', and then the suffix of the original
      name that starts at its last '.'. */
  function Extension(originalName: Option<string>): (ext: string)
    ensures |ext| > 0 && ext[0] == '.'
  {
    if originalName.Some? && '.' in originalName.value then
      originalName.value[LastIndexOf(originalName.value, '.')..]
    else
      DefaultExtension
  }

  /** Without a '.' in a present original name, the extension is ".png". */
  lemma ExtensionDefault(originalName: Option<string>)
    requires originalName.None? || '.' !in originalName.value
    ensures Extension(originalName) == ".png"
  {
  }

  /** With a '.' in the original name, the extension is a suffix of that name
      that starts with '.' and holds no other '.'. */
  lemma ExtensionIsDotSuffix(name: string)
    requires '.' in name
    ensures var ext := Extension(Some(name));
      |ext| <= |name| && name == name[..|name| - |ext|] + ext
      && ext[0] == '.' && '.' !in ext[1..]
  {
  }

  /** The extension is the ONLY suffix of the name that starts with '.' and
      holds no other '.': it starts at the last '.'. */
  lemma ExtensionIsLastDotSuffix(name: string, k: int)
    requires 0 <= k < |name| && name[k] == '.' && '.' !in name[k + 1..]
    ensures Extension(Some(name)) == name[k..]
  {
  }

  /** Example: "a.tar.gz" has extension ".gz" (only the last dot counts). */
  lemma ExtensionOfDoubleSuffix()
    ensures Extension(Some("a.tar.gz")) == ".gz"
  {
    assert "a.tar.gz"[6..] == "gz";
    ExtensionIsLastDotSuffix("a.tar.gz", 5);
  }

  /** Example: "photo." has extension "." (a trailing dot is kept alone). */
  lemma ExtensionOfTrailingDot()
    ensures Extension(Some("photo.")) == "."
  {
  }

  /** Example: ".hidden" has extension ".hidden" (the whole name). */
  lemma ExtensionOfLeadingDot()
    ensures Extension(Some(".hidden")) == ".hidden"
  {
  }

  /** Example: "photo.jpg" has extension ".jpg". */
  lemma ExtensionOfPlainName()
    ensures Extension(Some("photo.jpg")) == ".jpg"
  {
  }

  /** Examples without a '.': "noext" and a null name. */
  lemma ExtensionExamplesDefault()
    ensures Extension(Some("noext")) == ".png"
    ensures Extension(None) == ".png"
  {
  }

  // ---------------------------------------------------------------------------
  // The random identifier: UUID text without its hyphens
  // ---------------------------------------------------------------------------

  predicate IsLowerHexDigit(c: char) {
    '0' <= c <= '9' || 'a' <= c <= 'f'
  }

  /** Positions of the four hyphens in the 8-4-4-4-12 text form of a UUID. */
  predicate IsHyphenPosition(i: int) {
    i == 8 || i == 13 || i == 18 || i == 23
  }

  /** The text java.util.UUID.toString() produces: 36 characters, 32 lower-case
      hex digits in groups 8-4-4-4-12 separated by hyphens. */
  predicate IsUuidText(u: string) {
    |u| == 36 &&
    forall i :: 0 <= i < |u| ==> if IsHyphenPosition(i) then u[i] == '-' else IsLowerHexDigit(u[i])
  }

  /** The text of a UUID from UUID.randomUUID(): a version-4 UUID of the
      RFC 4122 variant (section 4.4 of RFC 4122), so its version digit is '4'
      and its variant digit is one of '8', '9', 'a', 'b'. */
  predicate IsUuidV4Text(u: string) {
    IsUuidText(u) && u[14] == '4' && u[19] in "89ab"
  }

  /** A 32-digit lower-case hex identifier. */
  predicate IsHexId(id: string) {
    |id| == 32 && forall i :: 0 <= i < |id| ==> IsLowerHexDigit(id[i])
  }

  /** Java's `replaceAll("-", "")`: the string with every '-' removed. */
  function RemoveHyphens(s: string): (r: string)
    ensures |r| <= |s| && '-' !in r
  {
    if s == [] then []
    else (if s[0] == '-' then [] else [s[0]]) + RemoveHyphens(s[1..])
  }

  lemma {:induction false} RemoveHyphensAppend(a: string, b: string)
    ensures RemoveHyphens(a + b) == RemoveHyphens(a) + RemoveHyphens(b)
  {
    if a != [] {
      assert (a + b)[0] == a[0] && (a + b)[1..] == a[1..] + b;
      RemoveHyphensAppend(a[1..], b);
    } else {
      assert a + b == b;
    }
  }

  lemma {:induction false} RemoveHyphensKeeps(a: string)
    requires '-' !in a
    ensures RemoveHyphens(a) == a
  {
    if a != [] {
      RemoveHyphensKeeps(a[1..]);
    }
  }

  /** Removing the hyphens from `s[k..]`, where a hyphen-free group of `n`
      characters is followed by a hyphen, keeps the group and skips the hyphen. */
  lemma SkipGroup(s: string, k: nat, n: nat)
    requires k + n < |s| && s[k + n] == '-'
    requires forall i :: k <= i < k + n ==> s[i] != '-'
    ensures RemoveHyphens(s[k..]) == s[k..k + n] + RemoveHyphens(s[k + n + 1..])
  {
    assert s[k..] == s[k..k + n] + ([s[k + n]] + s[k + n + 1..]);
    RemoveHyphensAppend(s[k..k + n], [s[k + n]] + s[k + n + 1..]);
    RemoveHyphensKeeps(s[k..k + n]);
    assert RemoveHyphens([s[k + n]] + s[k + n + 1..]) == RemoveHyphens(s[k + n + 1..]) by {
      assert ([s[k + n]] + s[k + n + 1..])[1..] == s[k + n + 1..];
    }
  }

  /** Removing the hyphens of a UUID's text leaves its five hex groups, joined. */
  lemma UuidGroupsJoined(u: string)
    requires IsUuidText(u)
    ensures RemoveHyphens(u) == u[..8] + u[9..13] + u[14..18] + u[19..23] + u[24..]
  {
    SkipGroup(u, 0, 8);
    SkipGroup(u, 9, 4);
    SkipGroup(u, 14, 4);
    SkipGroup(u, 19, 4);
    RemoveHyphensKeeps(u[24..]);
    assert u[0..] == u && u[0..8] == u[..8] && u[24..36] == u[24..];
  }

  /** The identifier of a random UUID is 32 lower-case hex digits with no '-',
      and keeps the version digit '4' at index 12 and the variant digit at 16. */
  lemma UuidIdIsHex(u: string)
    requires IsUuidV4Text(u)
    ensures var id := RemoveHyphens(u);
      IsHexId(id) && '-' !in id && id[12] == '4' && id[16] in "89ab"
  {
    UuidGroupsJoined(u);
    var id := RemoveHyphens(u);
    forall i | 0 <= i < 32 ensures IsLowerHexDigit(id[i]) {
      var j := if i < 8 then i else if i < 12 then i + 1 else if i < 16 then i + 2 else if i < 20 then i + 3 else i + 4;
      assert id[i] == u[j];
    }
    assert id[12] == u[14] && id[16] == u[19];
  }

  // ---------------------------------------------------------------------------
  // The stored file's name
  // ---------------------------------------------------------------------------

  /** The name `store` gives the file: the UUID's text without hyphens, then the extension. */
  function StoredName(uuid: string, originalName: Option<string>): string
    requires IsUuidV4Text(uuid)
  {
    RemoveHyphens(uuid) + Extension(originalName)
  }

  /** A stored name is 32 lower-case hex digits followed by the extension. */
  lemma StoredNameShape(uuid: string, originalName: Option<string>)
    requires IsUuidV4Text(uuid)
    ensures var name, ext := StoredName(uuid, originalName), Extension(originalName);
      |name| == 32 + |ext| && name[32..] == ext && IsHexId(name[..32]) && '-' !in name[..32]
  {
    UuidIdIsHex(uuid);
    var name := StoredName(uuid, originalName);
    assert name[..32] == RemoveHyphens(uuid);
  }

  /** A stored name is never blank, so `load` and `delete` never turn it away. */
  lemma StoredNameNotBlank(uuid: string, originalName: Option<string>)
    requires IsUuidV4Text(uuid)
    ensures !IsBlank(Some(StoredName(uuid, originalName)))
  {
  }

  /** Distinct UUIDs give distinct stored names, whatever the two extensions. */
  lemma DistinctUuidsDistinctNames(u1: string, n1: Option<string>, u2: string, n2: Option<string>)
    requires IsUuidV4Text(u1) && IsUuidV4Text(u2) && u1 != u2
    ensures StoredName(u1, n1) != StoredName(u2, n2)
  {
    UuidGroupsJoined(u1);
    UuidGroupsJoined(u2);
    StoredNameShape(u1, n1);
    StoredNameShape(u2, n2);
    var id1, id2 := RemoveHyphens(u1), RemoveHyphens(u2);
    assert exists i :: 0 <= i < 36 && u1[i] != u2[i];
    var i :| 0 <= i < 36 && u1[i] != u2[i];
    var j := if i < 8 then i else if i < 13 then i - 1 else if i < 18 then i - 2 else if i < 23 then i - 3 else i - 4;
    assert u1[i] == id1[j] && u2[i] == id2[j];
    assert StoredName(u1, n1)[..32] == id1 && StoredName(u2, n2)[..32] == id2;
  }
}
