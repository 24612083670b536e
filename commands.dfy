/**
  The command registry of the terminal (src/components/Terminal.tsx): ten
  zero-argument commands looked up by their trimmed, lower-cased name, the
  reply to one submitted line, and Tab completion over the registry's keys.
*/
module Commands {
  import opened Text
  import opened Wrappers

  datatype Name = Help | About | Whoami | Projects | Skills | Contact | Socials | Resume | Clear | Exit

  /** The registry's key for each command. */
  function KeyOf(n: Name): string {
    match n
    case Help => "help"
    case About => "about"
    case Whoami => "whoami"
    case Projects => "projects"
    case Skills => "skills"
    case Contact => "contact"
    case Socials => "socials"
    case Resume => "resume"
    case Clear => "clear"
    case Exit => "exit"
  }

  /** The commands in the order the registry declares them (the order of `Object.keys(commands)`). */
  const Registry: seq<Name> := [Help, About, Whoami, Projects, Skills, Contact, Socials, Resume, Clear, Exit]

  /** No command is registered twice. */
  lemma RegistryDistinct()
    ensures Distinct(Registry)
  {
  }

  /** Every command is registered. */
  lemma RegistryComplete(n: Name)
    ensures n in Registry
  {
    match n
    case Help => assert Registry[0] == n;
    case About => assert Registry[1] == n;
    case Whoami => assert Registry[2] == n;
    case Projects => assert Registry[3] == n;
    case Skills => assert Registry[4] == n;
    case Contact => assert Registry[5] == n;
    case Socials => assert Registry[6] == n;
    case Resume => assert Registry[7] == n;
    case Clear => assert Registry[8] == n;
    case Exit => assert Registry[9] == n;
  }

  /** The command whose key begins with the letters `a`, `b`; no two keys share their first two letters. */
  function ByInitials(a: char, b: char): Option<Name> {
    match (a, b)
    case ('h', 'e') => Some(Help)
    case ('a', 'b') => Some(About)
    case ('w', 'h') => Some(Whoami)
    case ('p', 'r') => Some(Projects)
    case ('s', 'k') => Some(Skills)
    case ('c', 'o') => Some(Contact)
    case ('s', 'o') => Some(Socials)
    case ('r', 'e') => Some(Resume)
    case ('c', 'l') => Some(Clear)
    case ('e', 'x') => Some(Exit)
    case _ => None
  }

  /** Every key is a word of at least two lower-case ASCII letters, identified by its first two. */
  lemma KeyShape(n: Name)
    ensures |KeyOf(n)| >= 2
    ensures forall c :: 0 <= c < |KeyOf(n)| ==> 'a' <= KeyOf(n)[c] <= 'z'
    ensures ByInitials(KeyOf(n)[0], KeyOf(n)[1]) == Some(n)
  {
  }

  /** No key is a prefix of another key. */
  lemma KeysPrefixFree(n: Name, m: Name)
    requires KeyOf(n) <= KeyOf(m)
    ensures n == m
  {
    KeyShape(n);
    KeyShape(m);
    assert KeyOf(m)[0] == KeyOf(n)[0] && KeyOf(m)[1] == KeyOf(n)[1];
  }

  /** `commands[key]`: the command registered under `key`, if any (own keys only). */
  function Lookup(key: string): (r: Option<Name>)
    ensures r.Some? ==> KeyOf(r.value) == key
    ensures r.None? ==> forall n: Name :: KeyOf(n) != key
  {
    if |key| >= 2 && ByInitials(key[0], key[1]).Some? && KeyOf(ByInitials(key[0], key[1]).value) == key then
      ByInitials(key[0], key[1])
    else
      assert forall n: Name :: KeyOf(n) != key by {
        forall n: Name ensures KeyOf(n) != key { KeyShape(n); }
      }
      None
  }

  /** Looking up a command's own key finds that command. */
  lemma LookupKeyOf(n: Name)
    ensures Lookup(KeyOf(n)) == Some(n)
  {
    KeyShape(n);
  }

  /** The lookup key of a submitted line: `cmd.trim().toLowerCase()`. */
  function LookupKey(cmd: string): (key: string)
    ensures IsTrimmed(key) && |key| <= |cmd|
    ensures key == "" <==> AllSpace(cmd)
    ensures forall k :: 0 <= k < |key| ==> !('A' <= key[k] <= 'Z')
  {
    LowerKeepsTrimmed(Trim(cmd));
    Lower(Trim(cmd))
  }

  /** The reply to a line naming no command: it quotes the key verbatim. */
  function NotFound(key: string): (r: string)
    ensures |r| == 19 + |key| + 37 && "Command not found: " <= r
    ensures r[19..19 + |key|] == key
    ensures r[19 + |key|..] == ". Type 'help' for available commands."
  {
    "Command not found: " + key + ". Type 'help' for available commands."
  }

  /**
    The texts the nine text-producing commands return. They are fixed templates
    over the static portfolio data and are taken as given; the entry for `Clear`
    is not used, since that command's behaviour is fixed.
  */
  type Replies = Name -> string

  /** What running one line does: the text it returns, and whether it emptied the transcript. */
  datatype Outcome = Outcome(text: string, clearsTranscript: bool)

  /** `executeCommand(cmd)`. */
  function ExecuteCommand(replies: Replies, cmd: string): (o: Outcome)
    ensures LookupKey(cmd) == "" ==> o == Outcome("", false)
    ensures forall n: Name :: LookupKey(cmd) == KeyOf(n) ==>
      o == if n == Clear then Outcome("", true) else Outcome(replies(n), false)
    ensures LookupKey(cmd) != "" && (forall n: Name :: LookupKey(cmd) != KeyOf(n)) ==>
      o == Outcome(NotFound(LookupKey(cmd)), false)
  {
    var key := LookupKey(cmd);
    assert forall n: Name :: Lookup(KeyOf(n)) == Some(n) by {
      forall n: Name ensures Lookup(KeyOf(n)) == Some(n) { LookupKeyOf(n); }
    }
    if key == "" then Outcome("", false)
    else
      match Lookup(key)
      case Some(Clear) => Outcome("", true)
      case Some(n) => Outcome(replies(n), false)
      case None => Outcome(NotFound(key), false)
  }

  /** Only the `clear` command empties the transcript, and it returns no text. */
  lemma OnlyClearClears(replies: Replies, cmd: string)
    ensures ExecuteCommand(replies, cmd).clearsTranscript <==> LookupKey(cmd) == KeyOf(Clear)
    ensures ExecuteCommand(replies, cmd).clearsTranscript ==> ExecuteCommand(replies, cmd).text == ""
  {
    var key := LookupKey(cmd);
    if key == KeyOf(Clear) {
      LookupKeyOf(Clear);
    }
  }

  /** The lookup key of a lookup key is itself. */
  lemma LookupKeyIdempotent(cmd: string)
    ensures LookupKey(LookupKey(cmd)) == LookupKey(cmd)
  {
    var t := Trim(cmd);
    LowerKeepsTrimmed(t);
    TrimTrimmed(Lower(t));
    LowerIdempotent(t);
  }

  /** Lookup ignores letter case and surrounding whitespace. */
  lemma ExecuteNormalizes(replies: Replies, cmd: string)
    ensures ExecuteCommand(replies, cmd) == ExecuteCommand(replies, LookupKey(cmd))
  {
    LookupKeyIdempotent(cmd);
  }

  /** A command's name in any letter case, padded with whitespace, runs that command. */
  lemma PaddedName(replies: Replies, n: Name, pre: string, word: string, post: string)
    requires AllSpace(pre) && AllSpace(post) && Lower(word) == KeyOf(n)
    ensures ExecuteCommand(replies, pre + word + post) == ExecuteCommand(replies, KeyOf(n))
    ensures n != Clear ==> ExecuteCommand(replies, pre + word + post) == Outcome(replies(n), false)
  {
    var key := KeyOf(n);
    KeyShape(n);
    LowerWord(word, key);
    TrimPadded(pre, word, post);
    LookupKeyOfKey(n);
  }

  /** A word whose lower case is a word of lower-case letters has no whitespace at its ends. */
  lemma LowerWord(word: string, key: string)
    requires Lower(word) == key && |key| > 0
    requires forall c :: 0 <= c < |key| ==> 'a' <= key[c] <= 'z'
    ensures IsTrimmed(word)
  {
    assert key[0] == LowerChar(word[0]);
    assert key[|word| - 1] == LowerChar(word[|word| - 1]);
  }

  /** A key is its own lookup key. */
  lemma LookupKeyOfKey(n: Name)
    ensures LookupKey(KeyOf(n)) == KeyOf(n)
  {
    KeyShape(n);
    LowerWordIsOwnKey(KeyOf(n));
  }

  /** A non-empty word of lower-case ASCII letters is its own lookup key. */
  lemma LowerWordIsOwnKey(key: string)
    requires |key| > 0 && forall c :: 0 <= c < |key| ==> 'a' <= key[c] <= 'z'
    ensures LookupKey(key) == key
  {
    assert !IsSpace(key[0]) && !IsSpace(key[|key| - 1]);
    TrimTrimmed(key);
    LowerOfLower(key);
  }

  /** An empty or blank line produces nothing and leaves the transcript alone. */
  lemma BlankLine(replies: Replies, cmd: string)
    requires AllSpace(cmd)
    ensures ExecuteCommand(replies, cmd) == Outcome("", false)
  {
  }

  /** The commands among `names` whose key starts with `prefix`, in order (`filter(cmd => cmd.startsWith(prefix))`). */
  function Matching(names: seq<Name>, prefix: string): (r: seq<Name>)
    ensures forall n :: n in r <==> n in names && prefix <= KeyOf(n)
    ensures |r| <= |names|
    ensures IsSubsequence(r, names)
    decreases |names|
  {
    if names == [] then []
    else if prefix <= KeyOf(names[0]) then [names[0]] + Matching(names[1..], prefix)
    else Matching(names[1..], prefix)
  }

  /** `r` is `s` with some elements left out and the rest kept in their order. */
  predicate IsSubsequence(r: seq<Name>, s: seq<Name>)
    decreases |s|
  {
    if r == [] then true
    else if s == [] then false
    else (r[0] == s[0] && IsSubsequence(r[1..], s[1..])) || IsSubsequence(r, s[1..])
  }

  predicate Distinct(names: seq<Name>) {
    forall i, j :: 0 <= i < j < |names| ==> names[i] != names[j]
  }

  /** Filtering a list without repeats gives a list without repeats. */
  lemma {:induction false} MatchingDistinct(names: seq<Name>, prefix: string)
    requires Distinct(names)
    ensures Distinct(Matching(names, prefix))
    decreases |names|
  {
    if names != [] {
      var rest := names[1..];
      assert Distinct(rest) by {
        forall i, j | 0 <= i < j < |rest| ensures rest[i] != rest[j] {
          assert rest[i] == names[i + 1] && rest[j] == names[j + 1];
        }
      }
      MatchingDistinct(rest, prefix);
      assert names[0] !in rest by {
        forall i | 0 <= i < |rest| ensures rest[i] != names[0] { assert rest[i] == names[i + 1]; }
      }
      var m := Matching(rest, prefix);
      if prefix <= KeyOf(names[0]) {
        var r := [names[0]] + m;
        forall i, j | 0 <= i < j < |r| ensures r[i] != r[j] {
          if i == 0 { assert r[j] == m[j - 1]; assert r[j] in m; } else { assert r[i] == m[i - 1] && r[j] == m[j - 1]; }
        }
      }
    }
  }

  /** `n` is the only command whose key starts with `prefix`. */
  predicate OnlyMatch(prefix: string, n: Name) {
    prefix <= KeyOf(n) && forall m: Name :: prefix <= KeyOf(m) ==> m == n
  }

  /** `n` is the only one of `names` whose key starts with `prefix`. */
  predicate OnlyMatchIn(names: seq<Name>, prefix: string, n: Name) {
    n in names && prefix <= KeyOf(n) && forall m :: m in names && prefix <= KeyOf(m) ==> m == n
  }

  /** Over a list without repeats, a command that is the only match is the whole filter result. */
  lemma OnlyMatchInFilter(names: seq<Name>, prefix: string, n: Name)
    requires Distinct(names) && OnlyMatchIn(names, prefix, n)
    ensures Matching(names, prefix) == [n]
  {
    var m := Matching(names, prefix);
    MatchingDistinct(names, prefix);
    assert n in m;
    assert forall i :: 0 <= i < |m| ==> m[i] == n by {
      forall i | 0 <= i < |m| ensures m[i] == n { assert m[i] in m; }
    }
    AllSameDistinct(m, n);
  }

  /** A list without repeats that holds only `n` holds it at most once. */
  lemma AllSameDistinct(m: seq<Name>, n: Name)
    requires Distinct(m) && forall i :: 0 <= i < |m| ==> m[i] == n
    ensures |m| <= 1
  {
    if m != [] {
      assert m[0] == n == m[|m| - 1];
    }
  }

  /** Over a list without repeats, the filter yields one command exactly when one key starts with the prefix. */
  lemma SingleMatchIn(names: seq<Name>, prefix: string)
    requires Distinct(names)
    ensures |Matching(names, prefix)| == 1 ==> OnlyMatchIn(names, prefix, Matching(names, prefix)[0])
    ensures |Matching(names, prefix)| != 1 ==> forall n :: !OnlyMatchIn(names, prefix, n)
  {
    var m := Matching(names, prefix);
    if |m| == 1 {
      assert m[0] in m;
      forall k | k in names && prefix <= KeyOf(k) ensures k == m[0] {
        assert k in m;
        assert m == [m[0]];
      }
    } else {
      forall n ensures !OnlyMatchIn(names, prefix, n) {
        if OnlyMatchIn(names, prefix, n) {
          OnlyMatchInFilter(names, prefix, n);
        }
      }
    }
  }

  /** Exactly one match in the registry means exactly one key starts with the prefix. */
  lemma SingleMatch(prefix: string)
    ensures |Matching(Registry, prefix)| == 1 ==> OnlyMatch(prefix, Matching(Registry, prefix)[0])
    ensures |Matching(Registry, prefix)| != 1 ==> forall n :: !OnlyMatch(prefix, n)
  {
    RegistryDistinct();
    SingleMatchIn(Registry, prefix);
    forall n ensures OnlyMatch(prefix, n) <==> OnlyMatchIn(Registry, prefix, n) {
      RegistryComplete(n);
      forall k | prefix <= KeyOf(k) ensures k in Registry { RegistryComplete(k); }
    }
  }

  /** Tab: `input` becomes the one key that starts with its lower-cased text, if exactly one does; otherwise it stays. */
  function Complete(input: string): (r: string)
    ensures forall n :: OnlyMatch(Lower(input), n) ==> r == KeyOf(n)
    ensures (forall n :: !OnlyMatch(Lower(input), n)) ==> r == input
  {
    var matches := Matching(Registry, Lower(input));
    SingleMatch(Lower(input));
    if |matches| == 1 then KeyOf(matches[0]) else input
  }

  /** A key is the only key it is a prefix of, so Tab leaves a complete key as it is. */
  lemma CompleteKey(n: Name)
    ensures Complete(KeyOf(n)) == KeyOf(n)
  {
    KeyShape(n);
    LowerOfLower(KeyOf(n));
    forall m: Name | KeyOf(n) <= KeyOf(m) ensures m == n { KeysPrefixFree(n, m); }
    assert OnlyMatch(Lower(KeyOf(n)), n);
  }

  /** Pressing Tab twice is pressing it once. */
  lemma CompleteIdempotent(input: string)
    ensures Complete(Complete(input)) == Complete(input)
  {
    if n :| OnlyMatch(Lower(input), n) {
      CompleteKey(n);
    }
  }

  /** An empty line matches all ten keys, and `c` and `s` two each: Tab leaves them alone. */
  lemma AmbiguousPrefixes()
    ensures Complete("") == ""
    ensures Complete("c") == "c"
    ensures Complete("s") == "s"
  {
    assert Lower("") == "" && Lower("c") == "c" && Lower("s") == "s";
    forall n ensures !OnlyMatch("", n) {
      if n == Help { assert "" <= KeyOf(About); } else { assert "" <= KeyOf(Help); }
    }
    forall n ensures !OnlyMatch("c", n) {
      if n == Clear { assert "c" <= KeyOf(Contact); } else { assert "c" <= KeyOf(Clear); }
    }
    forall n ensures !OnlyMatch("s", n) {
      if n == Skills { assert "s" <= KeyOf(Socials); } else { assert "s" <= KeyOf(Skills); }
    }
  }

  /** Tab lower-cases but does not trim: `PR` completes, ` pr` does not, `cl` picks `clear`. */
  lemma CompletionExamples()
    ensures Complete("PR") == "projects"
    ensures Complete(" pr") == " pr"
    ensures Complete("cl") == "clear"
  {
    assert Lower("PR") == "pr" && Lower(" pr") == " pr" && Lower("cl") == "cl";
    forall m: Name | "pr" <= KeyOf(m) ensures m == Projects {
      KeyShape(m);
      assert KeyOf(m)[0] == 'p' && KeyOf(m)[1] == 'r';
    }
    assert OnlyMatch("pr", Projects);
    forall m: Name | "cl" <= KeyOf(m) ensures m == Clear {
      KeyShape(m);
      assert KeyOf(m)[0] == 'c' && KeyOf(m)[1] == 'l';
    }
    assert OnlyMatch("cl", Clear);
    forall m: Name ensures !(" pr" <= KeyOf(m)) {
      KeyShape(m);
      assert KeyOf(m)[0] != ' ';
    }
  }
}
