/**
 * The key file that holds the face service's subscription key and endpoint
 * (`load_key` and the text `save_key` writes, utils.py). A file is modelled by
 * its text, or by the lines Python's file iteration yields (each line keeps its
 * `\n`, except possibly the last).
 */
module KeyFile {
  import opened Wrappers
  import opened Strings

  /** Quotes, space and tab: stripped from both ends of keys and values. */
  const MarkChars: set<char> := {'\'', '"', ' ', '\t'}

  datatype Credentials = Credentials(key: Option<string>, endpoint: Option<string>)

  /** What one line of the file does to the credentials read so far. */
  datatype Effect = SetKey(value: string) | SetEndpoint(value: string) | NoEffect

  datatype Field = KeyField | EndpointField

  /** No quote, blank or tab at either end. */
  predicate Unpadded(v: string)
  {
    |v| > 0 ==> v[0] !in MarkChars && v[|v| - 1] !in MarkChars
  }

  function Get(c: Credentials, f: Field): Option<string>
  {
    match f
    case KeyField => c.key
    case EndpointField => c.endpoint
  }

  predicate Sets(e: Effect, f: Field)
  {
    (f == KeyField && e.SetKey?) || (f == EndpointField && e.SetEndpoint?)
  }

  /**
   * One line: exactly one `=` makes a `name = value` line, which sets the key
   * or the endpoint when the name is `key` or `endpoint` (any case) and is
   * ignored otherwise; any other line not starting with `#` is a bare value,
   * an endpoint when it starts with `http` and a key otherwise. A value set
   * never begins or ends with a quote, blank or tab.
   */
  function LineEffect(line: string): (e: Effect)
    ensures !e.NoEffect? ==> Unpadded(e.value)
  {
    var line := Strip(line, {'\n'});
    var pair := Split(line, '=');
    if |pair| == 2 then
      var k := Lower(Strip(pair[0], MarkChars));
      var v := Strip(pair[1], MarkChars);
      if k == "key" then SetKey(v) else if k == "endpoint" then SetEndpoint(v) else NoEffect
    else if !StartsWith(line, "#") then
      var bare := Strip(line, MarkChars);
      if StartsWith(bare, "http") then SetEndpoint(bare) else SetKey(bare)
    else NoEffect
  }

  function Apply(c: Credentials, e: Effect): Credentials
  {
    match e
    case SetKey(v) => c.(key := Some(v))
    case SetEndpoint(v) => c.(endpoint := Some(v))
    case NoEffect => c
  }

  /** The credentials after the effects of the lines, in order, starting from nothing. */
  function Replay(effects: seq<Effect>): Credentials
  {
    if |effects| == 0 then Credentials(None, None)
    else Apply(Replay(effects[..|effects| - 1]), effects[|effects| - 1])
  }

  function Effects(lines: seq<string>): (effects: seq<Effect>)
    ensures |effects| == |lines|
    ensures forall i :: 0 <= i < |lines| ==> effects[i] == LineEffect(lines[i])
  {
    seq(|lines|, i requires 0 <= i < |lines| => LineEffect(lines[i]))
  }

  /** The credentials after reading `lines` in order, starting from nothing. */
  function Loaded(lines: seq<string>): Credentials
  {
    Replay(Effects(lines))
  }

  /** `load_key`, reading the lines of the key file one by one. */
  method LoadKey(lines: seq<string>) returns (key: Option<string>, endpoint: Option<string>)
    ensures Credentials(key, endpoint) == Loaded(lines)
  {
    key, endpoint := None, None;
    ghost var effects := Effects(lines);
    for n := 0 to |lines|
      invariant Credentials(key, endpoint) == Replay(effects[..n])
    {
      assert effects[..n + 1][..n] == effects[..n];
      assert effects[n] == LineEffect(lines[n]);
      var line := Strip(lines[n], {'\n'});
      var pair := Split(line, '=');
      if |pair| == 2 {
        var k := Lower(Strip(pair[0], MarkChars));
        var v := Strip(pair[1], MarkChars);
        if k == "key" {
          key := Some(v);
        } else if k == "endpoint" {
          endpoint := Some(v);
        }
      } else if !StartsWith(line, "#") {
        line := Strip(line, MarkChars);
        if StartsWith(line, "http") {
          endpoint := Some(line);
        } else {
          key := Some(line);
        }
      }
    }
    assert effects[..|lines|] == effects;
  }

  /** Effect `i` is the last one that sets field `f`. */
  ghost predicate LastSets(effects: seq<Effect>, f: Field, i: int)
  {
    && 0 <= i < |effects|
    && Sets(effects[i], f)
    && forall j :: i < j < |effects| ==> !Sets(effects[j], f)
  }

  /**
   * Later effects override earlier ones: a field stays `None` exactly when no
   * effect sets it, and otherwise holds the value of the last one that sets it.
   */
  lemma {:induction false} ReplayIsLastSetting(effects: seq<Effect>, f: Field)
    ensures Get(Replay(effects), f).None? <==> forall i :: 0 <= i < |effects| ==> !Sets(effects[i], f)
    ensures Get(Replay(effects), f).Some? ==>
      exists i :: LastSets(effects, f, i) && effects[i].value == Get(Replay(effects), f).value
  {
    if |effects| > 0 {
      var n := |effects| - 1;
      var init := effects[..n];
      ReplayIsLastSetting(init, f);
      assert forall i :: 0 <= i < n ==> init[i] == effects[i];
      if Sets(effects[n], f) {
        assert LastSets(effects, f, n);
      } else if Get(Replay(effects), f).Some? {
        var i :| LastSets(init, f, i) && init[i].value == Get(Replay(init), f).value;
        assert LastSets(effects, f, i);
      }
    }
  }

  /** A comment line (starting with `#`) never changes the credentials. */
  lemma CommentLineIgnored(line: string)
    requires StartsWith(Strip(line, {'\n'}), "#")
    ensures LineEffect(line) == NoEffect
  {
    var l := Strip(line, {'\n'});
    assert l[0] == '#';
    var pair := Split(l, '=');
    if |pair| == 2 {
      SplitFirst(l, '=');
      StripKeepsFirst(pair[0], MarkChars);
      var k := Lower(Strip(pair[0], MarkChars));
      assert k[0] == '#';
      assert k != "key" && k != "endpoint";
      AssignmentEffect(line, pair[0], pair[1]);
    }
  }

  // ---------------------------------------------------------------------
  // The text save_key writes, read back
  // ---------------------------------------------------------------------

  /** `save_key`'s file text. */
  function SavedText(key: string, endpoint: string): string
  {
    "key = " + key + "\nendpoint = " + endpoint + "\n"
  }

  /**
   * Text mode's universal newlines: `\r\n` and a lone `\r` read as `\n`.
   * What is read holds no `\r`, and a text without `\r` reads unchanged.
   */
  function Universal(text: string): (read: string)
    ensures '\r' !in read
    ensures '\r' !in text ==> read == text
    ensures |read| <= |text|
    decreases |text|
  {
    if text == [] then []
    else if text[0] == '\r' then
      "\n" + Universal(if |text| > 1 && text[1] == '\n' then text[2..] else text[1..])
    else
      assert text == [text[0]] + text[1..];
      [text[0]] + Universal(text[1..])
  }

  /**
   * The lines Python's iteration over a file opened in text mode with this
   * text yields: each ends at a line end, read as `\n`, and keeps it.
   */
  function FileLines(text: string): seq<string>
  {
    var parts := Split(Universal(text), '\n');
    var n := |parts| - 1;
    seq(n, i requires 0 <= i < n => parts[i] + "\n") + (if parts[n] == "" then [] else [parts[n]])
  }

  /** A value `save_key` can write so that `load_key` reads it back. */
  predicate Storable(v: string)
  {
    '=' !in v && '\n' !in v && '\r' !in v && Unpadded(v)
  }

  /** Splitting `name = value` at its one `=`. */
  lemma SplitAssignment(name: string, v: string)
    requires '=' !in name && '=' !in v
    ensures Split(name + " = " + v, '=') == [name + " ", " " + v]
  {
    assert name + " = " + v == (name + " ") + ['='] + (" " + v);
    SplitAround(name + " ", '=', " " + v);
    SplitWithoutSep(name + " ", '=');
    SplitWithoutSep(" " + v, '=');
  }

  /** A line with exactly one `=` is decided by the name before it. */
  lemma AssignmentEffect(line: string, name: string, v: string)
    requires Split(Strip(line, {'\n'}), '=') == [name, v]
    ensures LineEffect(line) ==
      var k := Lower(Strip(name, MarkChars));
      if k == "key" then SetKey(Strip(v, MarkChars))
      else if k == "endpoint" then SetEndpoint(Strip(v, MarkChars))
      else NoEffect
  {
  }

  lemma StripSavedLine(name: string, v: string)
    requires name == "key" || name == "endpoint"
    requires Storable(v)
    ensures Strip(name + " = " + v + "\n", {'\n'}) == name + " = " + v
  {
    var l := name + " = " + v;
    assert l[0] == name[0];
    assert l[|l| - 1] == if |v| > 0 then v[|v| - 1] else ' ';
    StripPadded("", l, "\n", {'\n'});
    assert "" + l + "\n" == name + " = " + v + "\n";
  }

  lemma StripSavedName(name: string)
    requires name == "key" || name == "endpoint"
    ensures Strip(name + " ", MarkChars) == name && Lower(name) == name
  {
    UnpadName(name);
    assert "" + name + " " == name + " ";
    LowerName(name);
  }

  /** The names of saved lines are already lower case. */
  lemma LowerName(name: string)
    requires name == "key" || name == "endpoint"
    ensures Lower(name) == name
  {
    if name == "key" {
      LowerUnchanged("key");
    } else {
      LowerUnchanged("endpoint");
    }
  }

  /** The name of a saved line loses its padding space. */
  lemma UnpadName(name: string)
    requires name == "key" || name == "endpoint"
    ensures Strip("" + name + " ", MarkChars) == name
  {
    if name == "key" {
      StripPadded("", "key", " ", MarkChars);
    } else {
      StripPadded("", "endpoint", " ", MarkChars);
    }
  }

  lemma StripSavedValue(v: string)
    requires Storable(v)
    ensures Strip(" " + v, MarkChars) == v
  {
    StripPadded(" ", v, "", MarkChars);
    assert " " + v + "" == " " + v;
  }

  /** One `name = value` line written by `save_key`. */
  lemma SavedLineEffect(name: string, v: string)
    requires name == "key" || name == "endpoint"
    requires Storable(v)
    ensures LineEffect(name + " = " + v + "\n") ==
      if name == "key" then SetKey(v) else SetEndpoint(v)
  {
    StripSavedLine(name, v);
    SplitAssignment(name, v);
    StripSavedName(name);
    StripSavedValue(v);
    AssignmentEffect(name + " = " + v + "\n", name + " ", " " + v);
  }

  /** The file text `save_key` writes, split at its line ends. */
  lemma SavedTextSplit(key: string, endpoint: string)
    requires '\n' !in key && '\n' !in endpoint
    ensures Split(SavedText(key, endpoint), '\n') == ["key = " + key, "endpoint = " + endpoint, ""]
  {
    var a := "key = " + key;
    var b := "endpoint = " + endpoint;
    assert SavedText(key, endpoint) == a + ['\n'] + (b + ['\n'] + "");
    SplitTwoLines(a, b);
  }

  /** Two lines, each ended by a line end. */
  lemma SplitTwoLines(a: string, b: string)
    requires '\n' !in a && '\n' !in b
    ensures Split(a + ['\n'] + (b + ['\n'] + ""), '\n') == [a, b, ""]
  {
    SplitAround(a, '\n', b + ['\n'] + "");
    SplitAround(b, '\n', "");
    SplitWithoutSep(a, '\n');
    SplitWithoutSep(b, '\n');
  }

  /** A text of two lines each ended by `\n`, and no `\r`. */
  lemma FileLinesOfTwo(text: string, a: string, b: string)
    requires '\r' !in text
    requires Split(text, '\n') == [a, b, ""]
    ensures FileLines(text) == [a + "\n", b + "\n"]
  {
  }

  /** The file text `save_key` writes holds two lines. */
  lemma SavedTextLines(key: string, endpoint: string)
    requires '\n' !in key && '\n' !in endpoint
    requires '\r' !in key && '\r' !in endpoint
    ensures FileLines(SavedText(key, endpoint)) == SavedLines(key, endpoint)
  {
    assert '\r' !in SavedText(key, endpoint);
    SavedTextSplit(key, endpoint);
    FileLinesOfTwo(SavedText(key, endpoint), "key = " + key, "endpoint = " + endpoint);
  }

  /** Two effects are applied in order. */
  lemma ReplayTwo(e1: Effect, e2: Effect)
    ensures Replay([e1, e2]) == Apply(Apply(Credentials(None, None), e1), e2)
  {
    assert [e1][..0] == [];
    assert Replay([e1]) == Apply(Credentials(None, None), e1);
    assert [e1, e2][..1] == [e1];
  }

  lemma SavedKeyLine(key: string)
    requires Storable(key)
    ensures LineEffect("key = " + key + "\n") == SetKey(key)
  {
    assert "key = " + key + "\n" == "key" + " = " + key + "\n";
    SavedLineEffect("key", key);
  }

  lemma SavedEndpointLine(endpoint: string)
    requires Storable(endpoint)
    ensures LineEffect("endpoint = " + endpoint + "\n") == SetEndpoint(endpoint)
  {
    assert "endpoint = " + endpoint + "\n" == "endpoint" + " = " + endpoint + "\n";
    SavedLineEffect("endpoint", endpoint);
  }

  /** The effects of the two saved lines. */
  lemma SavedEffects(key: string, endpoint: string)
    requires Storable(key) && Storable(endpoint)
    ensures Effects(SavedLines(key, endpoint)) == [SetKey(key), SetEndpoint(endpoint)]
  {
    SavedKeyEffect(key, endpoint);
    SavedEndpointEffect(key, endpoint);
  }

  function SavedLines(key: string, endpoint: string): seq<string>
  {
    ["key = " + key + "\n", "endpoint = " + endpoint + "\n"]
  }

  lemma SavedKeyEffect(key: string, endpoint: string)
    requires Storable(key)
    ensures Effects(SavedLines(key, endpoint))[0] == SetKey(key)
  {
    SavedKeyLine(key);
  }

  lemma SavedEndpointEffect(key: string, endpoint: string)
    requires Storable(endpoint)
    ensures Effects(SavedLines(key, endpoint))[1] == SetEndpoint(endpoint)
  {
    SavedEndpointLine(endpoint);
  }

  /** What `save_key` writes, `load_key` reads back. */
  lemma SaveThenLoad(key: string, endpoint: string)
    requires Storable(key) && Storable(endpoint)
    ensures Loaded(FileLines(SavedText(key, endpoint))) == Credentials(Some(key), Some(endpoint))
  {
    SavedTextLines(key, endpoint);
    SavedEffects(key, endpoint);
    ReplayTwo(SetKey(key), SetEndpoint(endpoint));
  }
}
