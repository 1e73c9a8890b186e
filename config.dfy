// read_config (src/main.py:42-54): the settings loaded from the JSON file,
// completed with whatever keys are missing. Reading the file and prompting
// the user are not modelled: `loaded` is the file's contents (empty when the
// file does not exist) and the three answers are what the user would type.

module Config {
  import opened PyStr

  const SnarfPath := "snarfpath"
  const Username := "username"
  const Password := "password"

  /** The three keys every run of the tool needs. */
  predicate IsComplete(data: map<string, string>) {
    SnarfPath in data && Username in data && Password in data
  }

  /** `data` with `key` set to `value` unless it is already there. */
  function Fill(data: map<string, string>, key: string, value: string): map<string, string> {
    if key in data then data else data[key := value]
  }

  /** Filling adds `key` and nothing else, keeps every value already there, and stores `value` only when `key` was missing. */
  lemma FillKeeps(data: map<string, string>, key: string, value: string)
    ensures var r := Fill(data, key, value);
      r.Keys == data.Keys + {key} &&
      (forall k :: k in data ==> r[k] == data[k]) &&
      (key !in data ==> r[key] == value)
  {
  }

  /** The configuration read_config returns: the three keys filled in order, the root URL stripped of '/'. */
  function Completed(loaded: map<string, string>, rootAnswer: string, userAnswer: string, passwordAnswer: string): map<string, string> {
    Fill(Fill(Fill(loaded, SnarfPath, Strip(rootAnswer, '/')), Username, userAnswer), Password, passwordAnswer)
  }

  /**
   * The completed configuration has the loaded keys and the three needed
   * ones; loaded values are kept, and each missing key holds its answer.
   * A configuration that already had the three keys comes back unchanged.
   */
  lemma CompletedFillsMissingKeys(loaded: map<string, string>, rootAnswer: string, userAnswer: string, passwordAnswer: string)
    ensures var data := Completed(loaded, rootAnswer, userAnswer, passwordAnswer);
      IsComplete(data) &&
      data.Keys == loaded.Keys + {SnarfPath, Username, Password} &&
      (forall k :: k in loaded ==> data[k] == loaded[k]) &&
      (SnarfPath !in loaded ==> data[SnarfPath] == Strip(rootAnswer, '/')) &&
      (Username !in loaded ==> data[Username] == userAnswer) &&
      (Password !in loaded ==> data[Password] == passwordAnswer)
  {
    FillThree(loaded, Strip(rootAnswer, '/'), userAnswer, passwordAnswer);
  }

  lemma FillThree(loaded: map<string, string>, root: string, user: string, password: string)
    ensures var data := Fill(Fill(Fill(loaded, SnarfPath, root), Username, user), Password, password);
      IsComplete(data) &&
      data.Keys == loaded.Keys + {SnarfPath, Username, Password} &&
      (forall k :: k in loaded ==> data[k] == loaded[k]) &&
      (SnarfPath !in loaded ==> data[SnarfPath] == root) &&
      (Username !in loaded ==> data[Username] == user) &&
      (Password !in loaded ==> data[Password] == password)
  {
    assert SnarfPath[0] != Username[0] && SnarfPath[0] != Password[0] && Username[0] != Password[0];
    var d1 := Fill(loaded, SnarfPath, root);
    var d2 := Fill(d1, Username, user);
    FillKeeps(loaded, SnarfPath, root);
    FillKeeps(d1, Username, user);
    FillKeeps(d2, Password, password);
  }

  lemma CompleteConfigUnchanged(loaded: map<string, string>, rootAnswer: string, userAnswer: string, passwordAnswer: string)
    requires IsComplete(loaded)
    ensures Completed(loaded, rootAnswer, userAnswer, passwordAnswer) == loaded
  {
  }

  /**
   * read_config after the file has been loaded: each missing key is filled
   * in turn, as the user answers each prompt.
   */
  method ReadConfig(loaded: map<string, string>, rootAnswer: string, userAnswer: string, passwordAnswer: string)
    returns (data: map<string, string>)
    ensures data == Completed(loaded, rootAnswer, userAnswer, passwordAnswer)
  {
    var root := Strip(rootAnswer, '/');
    data := loaded;
    if SnarfPath !in data {
      data := data[SnarfPath := root];
    }
    assert data == Fill(loaded, SnarfPath, root);
    ghost var filled := data;
    if Username !in data {
      data := data[Username := userAnswer];
    }
    assert data == Fill(filled, Username, userAnswer);
    filled := data;
    if Password !in data {
      data := data[Password := passwordAnswer];
    }
    assert data == Fill(filled, Password, passwordAnswer);
  }

  /** Reading a configuration that read_config returned prompts for nothing and changes nothing. */
  lemma ReadConfigIdempotent(loaded: map<string, string>, rootAnswer: string, userAnswer: string, passwordAnswer: string)
    ensures var once := Completed(loaded, rootAnswer, userAnswer, passwordAnswer);
      Completed(once, rootAnswer, userAnswer, passwordAnswer) == once
  {
    CompletedFillsMissingKeys(loaded, rootAnswer, userAnswer, passwordAnswer);
    CompleteConfigUnchanged(Completed(loaded, rootAnswer, userAnswer, passwordAnswer), rootAnswer, userAnswer, passwordAnswer);
  }

  /** A root URL that was typed in neither starts nor ends with '/', and stripping it again changes nothing. */
  lemma EnteredRootIsStripped(rootAnswer: string)
    ensures var r := Strip(rootAnswer, '/'); |r| > 0 ==> r[0] != '/' && r[|r| - 1] != '/'
    ensures Strip(Strip(rootAnswer, '/'), '/') == Strip(rootAnswer, '/')
  {
    StripIdempotent(rootAnswer, '/');
  }
}
