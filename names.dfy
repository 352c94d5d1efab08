/**
 * File names of downloaded images (utils.py, `get_unique_name`,
 * `change_name_hash`, `get_name_hash`): a name is `<prefix>_<number>`, where the
 * number is first a random uuid and is later replaced by the file's digest.
 */
module Names {
  import opened Wrappers
  import opened Strings

  /** The prefix part of `get_unique_name`: white-space runs become `_`; no prefix gives `temp`. */
  function NormalizePrefix(prefix: Option<string>): (p: string)
    ensures NoSpace(p)
    ensures prefix.None? ==> p == "temp"
  {
    match prefix
    case None => "temp"
    case Some(p) =>
      JoinNoSpace(Words(p), "_");
      Join(Words(p), "_")
  }

  /** `get_unique_name`, with the uuid's hex text passed in as `number`; the number is the name's hash. */
  function UniqueName(prefix: Option<string>, number: string): (name: string)
    ensures '_' !in number ==> GetNameHash(name) == number
  {
    var name := NormalizePrefix(prefix) + "_" + number;
    if '_' in number then name
    else
      ChangeNameHashKeepsStem(NormalizePrefix(prefix), number, number);
      name
  }

  /** A name is its last `_` segment, or the other segments joined, a `_`, and the last. */
  lemma LastSegment(name: string)
    ensures var parts := Split(name, '_');
      var k := |parts| - 1;
      (k == 0 && name == parts[k]) || (k > 0 && name == Join(parts[..k], "_") + "_" + parts[k])
  {
    var parts := Split(name, '_');
    var k := |parts| - 1;
    JoinSplit(name, '_');
    if k > 0 {
      assert parts == parts[..k] + [parts[k]];
      JoinSnoc(parts[..k], "_", parts[k]);
    }
  }

  /** `change_name_hash`: the name up to its last `_`, then `digest`. */
  function ChangeNameHash(name: string, digest: string): (r: string)
    ensures r == name[..|name| - |GetNameHash(name)|] + digest
  {
    var parts := Split(name, '_');
    var k := |parts| - 1;
    LastSegment(name);
    if k > 0 then
      JoinSnoc(parts[..k], "_", digest);
      assert name[..|name| - |parts[k]|] == Join(parts[..k], "_") + "_";
      Join(parts[..k] + [digest], "_")
    else
      assert parts[..k] + [digest] == [digest];
      Join(parts[..k] + [digest], "_")
  }

  /**
   * `get_name_hash`: the longest suffix of `name` without `_`: it is the whole
   * name, or it follows a `_`.
   */
  function GetNameHash(name: string): (h: string)
    ensures '_' !in h
    ensures |h| <= |name| && name[|name| - |h|..] == h
    ensures |h| < |name| ==> name[|name| - |h| - 1] == '_'
  {
    var parts := Split(name, '_');
    LastSegment(name);
    parts[|parts| - 1]
  }

  /** Normalising a normalised prefix changes nothing. */
  lemma NormalizeIdempotent(prefix: Option<string>)
    ensures NormalizePrefix(Some(NormalizePrefix(prefix))) == NormalizePrefix(prefix)
  {
    var p := NormalizePrefix(prefix);
    if |p| > 0 {
      WordsOfWord(p);
    } else {
      assert Words(p) == [];
    }
  }

  /** Words separated by single blanks become the same words separated by `_`. */
  lemma NormalizeJoinedWords(words: seq<string>)
    requires forall i :: 0 <= i < |words| ==> |words[i]| > 0 && NoSpace(words[i])
    ensures NormalizePrefix(Some(Join(words, " "))) == Join(words, "_")
  {
    WordsOfJoin(words);
  }

  /** Changing the hash alters only the last segment, and the rest of the segments are kept. */
  lemma ChangeNameHashSegments(name: string, digest: string)
    requires '_' !in digest
    ensures var parts := Split(name, '_');
      Split(ChangeNameHash(name, digest), '_') == parts[..|parts| - 1] + [digest]
  {
    var parts := Split(name, '_');
    var kept := parts[..|parts| - 1];
    assert ChangeNameHash(name, digest) == Join(kept + [digest], "_");
    NoSepAppended(kept, digest, '_');
    SplitJoin(kept + [digest], '_');
  }

  /** Parts free of a separator, with one more such part, are still free of it. */
  lemma NoSepAppended(parts: seq<string>, last: string, sep: char)
    requires forall i :: 0 <= i < |parts| ==> sep !in parts[i]
    requires sep !in last
    ensures forall i :: 0 <= i < |parts + [last]| ==> sep !in (parts + [last])[i]
  {
  }

  /** What `change_name_hash` writes is what `get_name_hash` reads back. */
  lemma GetChangedNameHash(name: string, digest: string)
    requires '_' !in digest
    ensures GetNameHash(ChangeNameHash(name, digest)) == digest
  {
    ChangeNameHashSegments(name, digest);
  }

  /** In `<stem>_<number>` the number is the hash, and changing it keeps the stem, `_`s and all. */
  lemma ChangeNameHashKeepsStem(stem: string, number: string, digest: string)
    requires '_' !in number && '_' !in digest
    ensures ChangeNameHash(stem + "_" + number, digest) == stem + "_" + digest
    ensures GetNameHash(stem + "_" + number) == number
  {
    SplitAround(stem, '_', number);
    SplitWithoutSep(number, '_');
    assert stem + "_" + number == stem + ['_'] + number;
    var parts := Split(stem, '_') + [number];
    assert parts[..|parts| - 1] == Split(stem, '_');
    JoinSnoc(Split(stem, '_'), "_", digest);
    JoinSplit(stem, '_');
  }

  /**
   * The uuid in a unique name is the part `get_name_hash` reads, and replacing it with a
   * digest (as `replace_uuid_with_digest` does, also behind a directory path) gives the
   * unique name with the digest as its number.
   */
  lemma UniqueNameRehash(dir: string, prefix: Option<string>, number: string, digest: string)
    requires '_' !in number && '_' !in digest
    ensures GetNameHash(dir + UniqueName(prefix, number)) == number
    ensures ChangeNameHash(dir + UniqueName(prefix, number), digest) == dir + UniqueName(prefix, digest)
  {
    var p := NormalizePrefix(prefix);
    assert UniqueName(prefix, number) == p + "_" + number;
    assert UniqueName(prefix, digest) == p + "_" + digest;
    BehindDirectory(dir, p, number);
    BehindDirectory(dir, p, digest);
    ChangeNameHashKeepsStem(dir + p, number, digest);
  }

  /** A name behind a directory path is a longer stem with the same last segment. */
  lemma BehindDirectory(dir: string, stem: string, number: string)
    ensures dir + (stem + "_" + number) == (dir + stem) + "_" + number
  {
  }
}
