/** One line of the Airtable secrets file, as load_credentials reads it. */
module SecretsLine {
  import opened Wrappers
  import opened Text

  const ApiKeyName := "AIRTABLE_API_KEY"
  const ExportPrefix := "export "

  predicate IsQuote(c: char) { c == '"' }

  /** The name a key stands for: a key starting with `export ` loses every `export `
      in it, any other key is its own name. */
  function KeyName(key: string): string {
    if ExportPrefix <= key then RemoveAll(key, ExportPrefix) else key
  }

  /** The key part of a stripped line names the API key: either exactly, or it starts
      with `export ` and deleting every `export ` from it leaves exactly the name
      (a key equal to the name does not start with `export `). */
  predicate NamesApiKey(key: string) {
    KeyName(key) == ApiKeyName
  }

  /** The token a stripped line containing `=` sets: the line is split at its first
      `=`, and when the key part names the API key the value loses its enclosing `"`s,
      so the token never begins or ends with a double quote. */
  function SplitToken(t: string): (r: Option<string>)
    requires '=' in t
    ensures r.Some? <==> NamesApiKey(t[..FirstIndex(t, '=')])
    ensures r.Some? ==> r.value == Strip(t[FirstIndex(t, '=') + 1..], IsQuote)
    ensures r.Some? ==> r.value == [] || (r.value[0] != '"' && r.value[|r.value| - 1] != '"')
  {
    var value := t[FirstIndex(t, '=') + 1..];
    StripEnds(value, IsQuote);
    if NamesApiKey(t[..FirstIndex(t, '=')]) then Some(Strip(value, IsQuote)) else None
  }

  /** The token one line of the secrets file sets, if it sets one: a line without `=` is
      ignored; otherwise it is stripped of white space and split. */
  function LineToken(line: string): (r: Option<string>)
    ensures r.Some? ==> '=' in line
    ensures '=' in line ==> '=' in Strip(line, IsSpace) && r == SplitToken(Strip(line, IsSpace))
  {
    if '=' !in line then None
    else
      StripKeeps(line, IsSpace, '=');
      SplitToken(Strip(line, IsSpace))
  }

  /** A line `key=value`, with any blanks before the key and after the value (the
      newline a file line ends with among them), is split at its first `=`: the value
      keeps any later `=`, and loses only its enclosing quotes. */
  lemma {:induction false} SplitAtFirstEquals(front: string, key: string, value: string, back: string)
    requires forall i :: 0 <= i < |front| ==> IsSpace(front[i])
    requires forall i :: 0 <= i < |back| ==> IsSpace(back[i])
    requires key != [] && !IsSpace(key[0]) && '=' !in key
    requires value == [] || !IsSpace(value[|value| - 1])
    ensures LineToken(front + key + "=" + value + back)
      == if NamesApiKey(key) then Some(Strip(value, IsQuote)) else None
  {
    var core := key + "=" + value;
    assert core[0] == key[0] && core[|key|] == '=';
    assert core[|core| - 1] == if value == [] then '=' else value[|value| - 1];
    var line := front + key + "=" + value + back;
    assert line == front + core + back;
    assert line[|front| + |key|] == '=';
    StripPadded(front, core, back, IsSpace);
    SplitAtKey(key, value);
  }

  /** A stripped `key=value` with an `=`-free key splits into that key and value. */
  lemma {:induction false} SplitAtKey(key: string, value: string)
    requires '=' !in key
    ensures '=' in key + "=" + value
    ensures SplitToken(key + "=" + value)
      == if NamesApiKey(key) then Some(Strip(value, IsQuote)) else None
  {
    var core := key + "=" + value;
    assert core == key + ['='] + value;
    assert core[|key|] == '=';
    FirstIndexAfter(key, '=', value);
    assert core[..|key|] == key;
    assert core[|key| + 1..] == value;
  }

  /** Both spellings of the key are accepted, and nothing else that differs from them
      only by a trailing blank. */
  lemma {:induction false} KeySpellings()
    ensures NamesApiKey("AIRTABLE_API_KEY")
    ensures NamesApiKey("export AIRTABLE_API_KEY")
    ensures !NamesApiKey("AIRTABLE_API_KEY ")
  {
    var key := "export AIRTABLE_API_KEY";
    assert ExportPrefix <= key;
    assert key[7..] == ApiKeyName;
    RemoveAbsent(key[7..], ExportPrefix);
    var spaced := "AIRTABLE_API_KEY ";
    assert spaced[0] != ExportPrefix[0];
  }
}

/** The Airtable part of load_credentials: the secrets file is read line by line, and
    each line that names the API key (bare or behind `export `) overwrites the token. */
module Credentials {
  import opened Wrappers
  import opened SecretsLine

  /** The key under which the credential set holds the Airtable token. */
  const TokenKey := "airtable_token"

  /** f applied to each element, built from the back as a loop over the lines reads them. */
  function Each<A, B>(f: A -> B, s: seq<A>): (r: seq<B>)
    ensures |r| == |s|
  {
    if s == [] then [] else Each(f, s[..|s| - 1]) + [f(s[|s| - 1])]
  }

  /** Entry k of Each is f of element k. */
  lemma {:induction false} EachAt<A, B>(f: A -> B, s: seq<A>, k: int)
    requires 0 <= k < |s|
    ensures Each(f, s)[k] == f(s[k])
  {
    var n := |s| - 1;
    var front := Each(f, s[..n]);
    assert Each(f, s) == front + [f(s[n])];
    if k < n {
      assert s[..n][k] == s[k];
      EachAt(f, s[..n], k);
      assert Each(f, s)[k] == front[k];
    }
  }

  /** What each line of the file sets, in file order. */
  function Settings(lines: seq<string>): (r: seq<Option<string>>)
    ensures |r| == |lines|
  {
    Each(LineToken, lines)
  }

  /** Settings line by line: the entry for line k is what line k sets. */
  lemma SettingsAt(lines: seq<string>, k: int)
    requires 0 <= k < |lines|
    ensures Settings(lines)[k] == LineToken(lines[k])
  {
    EachAt(LineToken, lines, k);
  }

  /** The token a run of overwrites leaves behind: the last one set, if any. */
  function LastSet(settings: seq<Option<string>>): (r: Option<string>)
    ensures r.Some? ==> r in settings
  {
    if settings == [] then None
    else if settings[|settings| - 1].Some? then settings[|settings| - 1]
    else LastSet(settings[..|settings| - 1])
  }

  /** The credential set restricted to the Airtable token; an absent file (None) leaves
      the key out. The loop overwrites the entry for every matching line. */
  method LoadCredentials(file: Option<seq<string>>) returns (creds: map<string, string>)
    ensures creds.Keys <= {TokenKey}
    ensures TokenKey in creds <==> file.Some? && LastSet(Settings(file.value)).Some?
    ensures TokenKey in creds ==> creds[TokenKey] == LastSet(Settings(file.value)).value
  {
    creds := map[];
    if file.Some? {
      var lines := file.value;
      var i := 0;
      while i < |lines|
        invariant 0 <= i <= |lines|
        invariant creds.Keys <= {TokenKey}
        invariant TokenKey in creds <==> LastSet(Settings(lines[..i])).Some?
        invariant TokenKey in creds ==> creds[TokenKey] == LastSet(Settings(lines[..i])).value
      {
        var token := LineToken(lines[i]);
        OneMoreLine(lines, i);
        if token.Some? {
          creds := creds[TokenKey := token.value];
        }
        i := i + 1;
      }
      assert lines[..i] == lines;
    }
  }

  /** Reading line i after lines 0..i-1: a token it sets wins, otherwise the earlier one stays. */
  lemma OneMoreLine(lines: seq<string>, i: int)
    requires 0 <= i < |lines|
    ensures LastSet(Settings(lines[..i + 1]))
      == if LineToken(lines[i]).Some? then LineToken(lines[i]) else LastSet(Settings(lines[..i]))
  {
    var before := Settings(lines[..i]);
    var token := LineToken(lines[i]);
    assert lines[..i + 1][..i] == lines[..i];
    assert Settings(lines[..i + 1]) == before + [token];
    assert (before + [token])[..i] == before;
  }

  /** The token is the one set by some line after which no line sets one; and it is
      unset exactly when no line sets one. */
  lemma {:induction false} LastSetFromLastSetter(settings: seq<Option<string>>)
    ensures LastSet(settings).Some? ==>
      exists k :: 0 <= k < |settings| && settings[k] == LastSet(settings)
        && forall j :: k < j < |settings| ==> settings[j].None?
    ensures LastSet(settings).None? <==> forall j :: 0 <= j < |settings| ==> settings[j].None?
  {
    if settings != [] {
      var n := |settings| - 1;
      var init := settings[..n];
      LastSetFromLastSetter(init);
      if settings[n].None? {
        assert forall j :: 0 <= j < n ==> settings[j] == init[j];
      }
    }
  }

  /** A later matching line overwrites an earlier one: whatever precedes a line that
      sets a token is irrelevant once nothing after it sets one. */
  lemma {:induction false} LaterLineWins(before: seq<Option<string>>, token: string, after: seq<Option<string>>)
    requires forall j :: 0 <= j < |after| ==> after[j].None?
    ensures LastSet(before + [Some(token)] + after) == Some(token)
  {
    var all := before + [Some(token)] + after;
    if after != [] {
      assert all[|all| - 1] == after[|after| - 1];
      assert all[..|all| - 1] == before + [Some(token)] + after[..|after| - 1];
      LaterLineWins(before, token, after[..|after| - 1]);
    } else {
      assert all[|all| - 1] == Some(token);
    }
  }

  /** Lines that set nothing, such as those without `=`, do not disturb the token. */
  lemma {:induction false} IgnoredLinesKeepToken(settings: seq<Option<string>>, extra: seq<Option<string>>)
    requires forall j :: 0 <= j < |extra| ==> extra[j].None?
    ensures LastSet(settings + extra) == LastSet(settings)
  {
    var all := settings + extra;
    if extra != [] {
      assert all[|all| - 1] == extra[|extra| - 1];
      assert all[..|all| - 1] == settings + extra[..|extra| - 1];
      IgnoredLinesKeepToken(settings, extra[..|extra| - 1]);
    } else {
      assert all == settings;
    }
  }
}
