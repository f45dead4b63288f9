/** The 8-character names of directory entries: how they are written and how they are matched. */
module FatNames {
  import opened Words
  import opened Sectors

  const NAME_SIZE := 8

  function Upper(c: Char): Char {
    if 97 <= c <= 122 then c - 32 else c
  }

  /** Where a scan of `name` from position `j` stops: at eight characters, at the end, or at a stop character. */
  function Cut(name: Text, stops: set<Char>, j: nat := 0): (n: nat)
    requires j <= NAME_SIZE && j <= |name|
    ensures j <= n <= NAME_SIZE && n <= |name|
    ensures forall k :: j <= k < n ==> name[k] !in stops
    ensures n < NAME_SIZE && n < |name| ==> name[n] in stops
    decreases NAME_SIZE - j
  {
    if j == NAME_SIZE || j == |name| || name[j] in stops then j else Cut(name, stops, j + 1)
  }

  /** The part of `name` before the first stop character, in upper case, padded with spaces to eight bytes. */
  function Key(name: Text, stops: set<Char>): (k: seq<Byte>)
    ensures |k| == NAME_SIZE
  {
    seq(NAME_SIZE, j requires 0 <= j < NAME_SIZE => if j < Cut(name, stops) then Upper(name[j]) else SPACE)
  }

  /** The stop characters of the loops that write a name (mkdir, touch). */
  const WRITE_STOPS: set<Char> := {DOT}

  /** The stop characters of the loop that compares a name. */
  const MATCH_STOPS: set<Char> := {DOT, LF, CR}

  /** The name field that mkdir and touch store. */
  function StoredName(name: Text): Name11 {
    Key(name, WRITE_STOPS) + [SPACE, SPACE, SPACE]
  }

  /** The only eight bytes that `name` matches. */
  function SearchKey(name: Text): (k: seq<Byte>)
    ensures |k| == NAME_SIZE
  {
    Key(name, MATCH_STOPS)
  }

  predicate Matches(name: Text, e: Entry) {
    e.name[..NAME_SIZE] == SearchKey(name)
  }

  const DELETED: Byte := 0xE5

  predicate Live(e: Entry) {
    e.name[0] != 0 && e.name[0] != DELETED
  }

  predicate IsDirectory(e: Entry) {
    e.attributes / 0x10 % 2 == 1
  }

  /** No line break within the part of the name that is stored. */
  predicate Plain(name: Text) {
    forall k :: 0 <= k < Cut(name, WRITE_STOPS) ==> name[k] != LF && name[k] != CR
  }

  /** The name does not start with the deletion mark, so that an entry stored for it is live. */
  predicate Visible(name: Text) {
    name == [] || name[0] != DELETED
  }

  /** The guard a caller can check before mkdir or touch: an entry stored for the name is live and matches it. */
  predicate Storable(name: Text) {
    Plain(name) && Visible(name)
  }

  lemma SearchKeyAt(name: Text, j: nat)
    requires j < NAME_SIZE
    ensures SearchKey(name)[j] == if j < Cut(name, MATCH_STOPS) then Upper(name[j]) else SPACE
  {
  }

  lemma SameKey(field: Name11, key: seq<Byte>)
    requires |key| == NAME_SIZE
    ensures field[..NAME_SIZE] == key <==> forall k :: 0 <= k < NAME_SIZE ==> field[k] == key[k]
  {
    if field[..NAME_SIZE] == key {
      forall k | 0 <= k < NAME_SIZE
        ensures field[k] == key[k]
      {
        assert field[..NAME_SIZE][k] == field[k];
      }
    }
  }

  /** Where a scan stops, told by the characters alone. */
  lemma CutIs(name: Text, stops: set<Char>, k: nat)
    requires k < NAME_SIZE
    ensures k < Cut(name, stops) <==> k < |name| && forall j :: 0 <= j <= k ==> name[j] !in stops
  {
  }

  /**
   The bytes stored for a name: up to eight characters before the first dot, the letters a to z as A to Z, then
   spaces.
   */
  lemma StoredNameBytes(name: Text, k: nat)
    requires k < 11
    ensures StoredName(name)[k] ==
              if k < 8 && k < |name| && (forall j :: 0 <= j <= k ==> name[j] != 46)
              then (if 97 <= name[k] <= 122 then name[k] - 32 else name[k])
              else 32
  {
    if k < NAME_SIZE {
      CutIs(name, WRITE_STOPS, k);
    }
  }

  /** All eleven. */
  lemma StoredBytes(name: Text)
    ensures forall k :: 0 <= k < 11 ==>
              StoredName(name)[k] == if k < 8 && k < |name| && (forall j :: 0 <= j <= k ==> name[j] != 46)
                                     then (if 97 <= name[k] <= 122 then name[k] - 32 else name[k])
                                     else 32
  {
    hide StoredName;
    forall k: nat | k < 11 {
      StoredNameBytes(name, k);
    }
  }

  /** The bytes a name is compared with: the same, but cut at a line break too. */
  lemma SearchKeyBytes(name: Text, k: nat)
    requires k < 8
    ensures SearchKey(name)[k] ==
              if k < |name| && (forall j :: 0 <= j <= k ==> name[j] != 46 && name[j] != 10 && name[j] != 13)
              then (if 97 <= name[k] <= 122 then name[k] - 32 else name[k])
              else 32
  {
    CutIs(name, MATCH_STOPS, k);
  }

  /** A name matches a field exactly when the first eight bytes are those. */
  lemma MatchingBytes(input: Text, field: Name11)
    ensures field[..NAME_SIZE] == SearchKey(input) <==>
              forall k :: 0 <= k < 8 ==>
                field[k] ==
                  if k < |input| && (forall j :: 0 <= j <= k ==> input[j] != 46 && input[j] != 10 && input[j] != 13)
                  then (if 97 <= input[k] <= 122 then input[k] - 32 else input[k])
                  else 32
  {
    SameKey(field, SearchKey(input));
    hide SearchKey;
    forall k: nat | k < 8 {
      SearchKeyBytes(input, k);
    }
  }

  /** Two names that differ only in the case of letters. */
  predicate SameLetters(a: Text, b: Text) {
    |a| == |b| && forall k :: 0 <= k < |a| ==>
      a[k] == b[k] || (97 <= a[k] <= 122 && b[k] == a[k] - 32) || (97 <= b[k] <= 122 && a[k] == b[k] - 32)
  }

  /** Names that differ only in case are stored alike, compared alike, and are storable or not alike. */
  lemma CaseIgnored(a: Text, b: Text)
    requires SameLetters(a, b)
    ensures StoredName(a) == StoredName(b) && SearchKey(a) == SearchKey(b)
    ensures Storable(a) <==> Storable(b)
  {
    hide Key, Cut, SameLetters;
    SameCutKey(a, b, WRITE_STOPS);
    SameCutKey(a, b, MATCH_STOPS);
    SameBreaks(a, b);
  }

  lemma SameBreaks(a: Text, b: Text)
    requires SameLetters(a, b)
    ensures |a| == |b| && forall k :: 0 <= k < |a| ==>
              (a[k] == 10 <==> b[k] == 10) && (a[k] == 13 <==> b[k] == 13) && (a[k] == 0xE5 <==> b[k] == 0xE5)
  {
  }

  lemma SameCutKey(a: Text, b: Text, stops: set<Char>)
    requires SameLetters(a, b) && stops <= {DOT, LF, CR}
    ensures Cut(a, stops) == Cut(b, stops) && Key(a, stops) == Key(b, stops)
  {
    hide Cut;
    var m, n := Cut(a, stops), Cut(b, stops);
    assert forall k :: 0 <= k < |a| ==> (a[k] in stops <==> b[k] in stops);
    assert forall k :: 0 <= k < |a| ==> Upper(a[k]) == Upper(b[k]);
  }

  /** fat_name_match, loop for loop. */
  method NameMatch(input: Text, fatName: Name11) returns (r: bool)
    ensures r <==> fatName[..NAME_SIZE] == SearchKey(input)
    ensures r <==> forall k :: 0 <= k < 8 ==>
              fatName[k] ==
                if k < |input| && (forall j :: 0 <= j <= k ==> input[j] != 46 && input[j] != 10 && input[j] != 13)
                then (if 97 <= input[k] <= 122 then input[k] - 32 else input[k])
                else 32
  {
    MatchingBytes(input, fatName);
    hide SearchKey, Cut;
    ghost var key := SearchKey(input);
    ghost var cut := Cut(input, MATCH_STOPS);
    SameKey(fatName, key);
    var i := 0;
    while i < NAME_SIZE
      invariant 0 <= i <= NAME_SIZE && i <= cut
      invariant forall k :: 0 <= k < i ==> fatName[k] == key[k]
    {
      SearchKeyAt(input, i);
      if i == |input| || input[i] == DOT || input[i] == LF || input[i] == CR {
        assert i == cut;
        var k := i;
        while k < NAME_SIZE
          invariant i <= k <= NAME_SIZE
          invariant forall k' :: 0 <= k' < k ==> fatName[k'] == key[k']
        {
          SearchKeyAt(input, k);
          if fatName[k] != SPACE {
            return false;
          }
          k := k + 1;
        }
        return true;
      }
      assert i < cut;
      var c := input[i];
      if 97 <= c <= 122 {
        c := c - 32;
      }
      if c != fatName[i] {
        return false;
      }
      i := i + 1;
    }
    return true;
  }

  lemma StoredNameFrom(name: Text, field: Name11, cut: nat)
    requires cut == Cut(name, WRITE_STOPS)
    requires forall k :: 0 <= k < cut ==> field[k] == Upper(name[k])
    requires forall k :: cut <= k < 11 ==> field[k] == SPACE
    ensures field == StoredName(name)
  {
    hide Cut;
  }

  /** The two loops that write a name into an entry (the memset of 11 spaces, then at most 8 characters). */
  method WriteName(name: Text) returns (field: Name11)
    ensures field == StoredName(name)
    ensures forall k :: 0 <= k < 11 ==>
              field[k] == if k < 8 && k < |name| && (forall j :: 0 <= j <= k ==> name[j] != 46)
                          then (if 97 <= name[k] <= 122 then name[k] - 32 else name[k])
                          else 32
  {
    StoredBytes(name);
    hide StoredName;
    field := seq(11, _ => SPACE);
    var j := 0;
    while j < NAME_SIZE && j < |name| && name[j] != DOT
      invariant 0 <= j <= NAME_SIZE && j <= Cut(name, WRITE_STOPS)
      invariant forall k :: 0 <= k < j ==> field[k] == Upper(name[k])
      invariant forall k :: j <= k < 11 ==> field[k] == SPACE
    {
      var c := name[j];
      if 97 <= c <= 122 {
        c := c - 32;
      }
      field := field[j := c];
      j := j + 1;
    }
    assert j == Cut(name, WRITE_STOPS);
    StoredNameFrom(name, field, j);
  }

  /** Round trip: a name matches the field just written for it exactly when its stored part holds no line break. */
  lemma StoredNameMatches(name: Text)
    ensures StoredName(name)[..NAME_SIZE] == SearchKey(name) <==> Plain(name)
  {
    var w, m := Cut(name, WRITE_STOPS), Cut(name, MATCH_STOPS);
    var stored, key := Key(name, WRITE_STOPS), SearchKey(name);
    assert StoredName(name)[..NAME_SIZE] == stored;
    if Plain(name) {
      assert w == m;
    } else {
      assert m < w && (name[m] == LF || name[m] == CR);
      assert stored[m] != key[m];
    }
  }

  /** No name ever matches the dot entries, nor any slot that was never used. */
  lemma NeverMatches(name: Text, e: Entry)
    requires e.name[0] == DOT || e.name[0] == 0
    ensures !Matches(name, e)
  {
    assert e.name[..NAME_SIZE][0] == e.name[0];
    assert SearchKey(name)[0] != e.name[0];
  }

  /** What a name can match among deleted slots: only a name that itself starts with the deletion mark. */
  lemma MatchesDeleted(name: Text, e: Entry)
    requires Matches(name, e) && !Live(e)
    ensures name != [] && name[0] == DELETED && e.name[0] == DELETED
  {
    assert e.name[..NAME_SIZE][0] == e.name[0];
    assert SearchKey(name)[0] == e.name[0];
  }

  /** An entry written for a name is live exactly when the name does not start with the deletion mark. */
  lemma StoredNameLive(name: Text, e: Entry)
    requires e.name == StoredName(name)
    ensures Live(e) <==> Visible(name)
    ensures e.name[0] != DOT
  {
    assert e.name[0] == Key(name, WRITE_STOPS)[0];
  }
}
