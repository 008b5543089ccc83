/** Store paths and the 32-character hashes taken from them. */
module StorePaths {
  import opened Text

  const STORE_DIR := "/nix/store/"
  const NIX_ALPHABET := "0123456789abcdfghijklmnpqrsvwxyz"

  predicate IsNixHash(s: string) {
    |s| == 32 && forall i | 0 <= i < |s| :: s[i] in NIX_ALPHABET
  }

  function TrimRightSlashes(s: string): string {
    if s != "" && s[|s| - 1] == '/' then TrimRightSlashes(s[..|s| - 1]) else s
  }

  /** `filepath.Base` on a Unix path. */
  function Base(path: string): string {
    if path == "" then "."
    else
      var parts := Split(TrimRightSlashes(path), {'/'});
      var last := parts[|parts| - 1];
      if last == "" then "/" else last
  }

  /** The hash the garbage collector follows for a reference, or "" when there is none to follow. */
  function GetHashFromPath(storePath: string): string {
    var base := Base(storePath);
    if |base| < 32 then ""
    else if !IsNixHash(base[..32]) then ""
    else base[..32]
  }

  /** The hash under which the publisher files a path. */
  function GetPathHash(storePath: string): string {
    var base := Base(storePath);
    if |base| < 32 then "" else base[..32]
  }

  function GetPathName(storePath: string): string {
    var base := Base(storePath);
    if |base| <= 33 then base else base[33..]
  }

  /** The names a store object can have in a narinfo file: one path component without white space. */
  predicate StoreName(name: string) {
    name != "" && Free(name, WHITESPACE) && Free(name, {'/'})
  }

  predicate StoreReference(path: string) {
    HasPrefix(path, STORE_DIR) && StoreName(path[|STORE_DIR|..])
  }

  lemma BaseOfStorePath(name: string)
    requires name != "" && Free(name, {'/'})
    ensures Base(STORE_DIR + name) == name
  {
    var path := STORE_DIR + name;
    var parts := ["", "nix", "store", name];
    assert path[|path| - 1] == name[|name| - 1] != '/';
    calc {
      Join(parts, '/');
      "" + "/" + Join(["nix", "store", name], '/');
      { assert parts[1..] == ["nix", "store", name]; }
      "/" + ("nix" + "/" + Join(["store", name], '/'));
      { assert ["nix", "store", name][1..] == ["store", name]; }
      "/" + ("nix" + "/" + ("store" + "/" + Join([name], '/')));
      { assert ["store", name][1..] == [name]; }
      path;
    }
    SplitJoin(parts, '/', {'/'});
  }

  lemma HashHasNone(hash: string, seps: set<char>)
    requires IsNixHash(hash) && forall c | c in seps :: c !in NIX_ALPHABET
    ensures Free(hash, seps)
  {
  }

  /** The alphabet: all digits and lower-case letters except `e`, `o`, `t` and `u`, ... */
  lemma AlphabetIs(c: char)
    ensures c in NIX_ALPHABET <==> ('0' <= c <= '9' || 'a' <= c <= 'z') && c !in {'e', 'o', 't', 'u'}
  {
    if c in NIX_ALPHABET {
      var k :| 0 <= k < |NIX_ALPHABET| && NIX_ALPHABET[k] == c;
      LetterIs(k);
    } else if '0' <= c <= '9' {
      DigitsPresent(c);
    } else if 'a' <= c <= 'z' && c !in {'e', 'o', 't', 'u'} {
      LettersPresent(c);
    }
  }

  lemma LetterIs(k: nat)
    requires k < 32
    ensures |NIX_ALPHABET| == 32
    ensures var c := NIX_ALPHABET[k]; ('0' <= c <= '9' || 'a' <= c <= 'z') && c !in {'e', 'o', 't', 'u'}
  {
  }

  lemma DigitsPresent(c: char)
    requires '0' <= c <= '9'
    ensures c in NIX_ALPHABET
  {
    assert NIX_ALPHABET[c as int - '0' as int] == c;
  }

  lemma LettersPresent(c: char)
    requires 'a' <= c <= 'z' && c !in {'e', 'o', 't', 'u'}
    ensures c in NIX_ALPHABET
  {
    var k := c as int - 'a' as int;
    assert NIX_ALPHABET[10 + if k < 4 then k else if k < 14 then k - 1 else if k < 19 then k - 2 else k - 4] == c;
  }

  /** ... in ascending order. */
  lemma AlphabetAscends(i: nat)
    requires i < 31
    ensures |NIX_ALPHABET| == 32 && NIX_ALPHABET[i] < NIX_ALPHABET[i + 1]
  {
  }

  /** What is read out of the path of a store object: both the collector and the publisher find the hash it
      begins with, and the publisher the name behind it. */
  lemma HashOfStorePath(hash: string, rest: string)
    requires IsNixHash(hash) && Free(rest, {'/'})
    ensures GetHashFromPath(STORE_DIR + hash + rest) == hash
    ensures GetPathHash(STORE_DIR + hash + rest) == hash
    ensures |rest| > 1 ==> GetPathName(STORE_DIR + hash + rest) == rest[1..]
  {
    HashHasNone(hash, {'/'}) by {
      AlphabetIs('/');
    }
    assert STORE_DIR + hash + rest == STORE_DIR + (hash + rest);
    BaseOfStorePath(hash + rest);
    assert (hash + rest)[..32] == hash;
    if |rest| > 1 {
      assert (hash + rest)[33..] == rest[1..];
    }
  }
}
