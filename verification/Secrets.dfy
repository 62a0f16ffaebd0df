/** What a secret in a text is (the rules above each step of src/domain/redaction.cpp), in terms of the
    text alone, without the scan that finds it. */
module Secrets {

  /** `c` is the character `w` of a keyword, in either case if that is a letter. */
  predicate SameLetter(c: char, w: char) {
    c == w || ('a' <= w <= 'z' && c as int + 32 == w as int)
  }

  predicate Spells(s: string, i: nat, word: string) {
    i + |word| <= |s| && forall j :: 0 <= j < |word| ==> SameLetter(s[i + j], word[j])
  }

  predicate HasWord(s: string, word: string) {
    exists i :: 0 <= i <= |s| && Spells(s, i, word)
  }

  /** The names under which secrets go. */
  predicate NamesSecret(key: string) {
    || HasWord(key, "token")
    || HasWord(key, "secret")
    || HasWord(key, "password")
    || HasWord(key, "api_key")
    || HasWord(key, "api-key")
    || HasWord(key, "apikey")
    || HasWord(key, "mpin")
    || HasWord(key, "totp")
    || HasWord(key, "bearer")
  }

  predicate Letter(c: char) {
    'a' <= c <= 'z' || 'A' <= c <= 'Z'
  }

  predicate Digit(c: char) {
    '0' <= c <= '9'
  }

  predicate InKey(c: char) {
    Letter(c) || Digit(c) || c == '_' || c == '-'
  }

  predicate Blank(c: char) {
    c == ' ' || c == '\t' || c == '\r' || c == '\n' || c == '\U{c}' || c == '\U{b}'
  }

  predicate Quotes(c: char) {
    c == '\"' || c == '\''
  }

  predicate Delimits(c: char) {
    Blank(c) || Quotes(c) || c in "&,;}])<>|"
  }

  /** The key characters at the front of a text are its first `k`. */
  predicate LeadingRun(s: string, k: nat) {
    && 0 < k <= |s| && (forall q :: 0 <= q < k ==> InKey(s[q]))
    && (k == |s| || !InKey(s[k]))
  }

  /** From `k` to `c` stand perhaps a quote, blanks, a colon or equals sign at `m`, and blanks. */
  predicate Separates(s: string, k: nat, m: nat, c: nat) {
    && k <= m < c <= |s| && (s[m] == ':' || s[m] == '=')
    && (forall q :: k <= q < m ==> Blank(s[q]) || (q == k && Quotes(s[k])))
    && (forall q :: m < q < c ==> Blank(s[q]))
    && (c == |s| || !Blank(s[c]))
  }

  /** The value at `c` is the text from `v` to `e`: up to the same quote, or to a delimiter. */
  predicate ValueIs(s: string, c: nat, v: nat, e: nat) {
    && c <= v <= e <= |s|
    && if c < |s| && Quotes(s[c]) then
         && v == c + 1 && (forall q :: v <= q < e ==> s[q] != s[c])
         && (e == |s| || s[e] == s[c])
       else
         && v == c && (forall q :: v <= q < e ==> !Delimits(s[q]))
         && (e == |s| || Delimits(s[e]))
  }

  /** The parts of a named secret at the front of a text: where its key ends, its separator stands, the
      blanks behind that end, and its value begins and ends. */
  datatype Parts = Parts(key: nat, sep: nat, blanks: nat, value: nat, end: nat)

  predicate Secret(s: string, p: Parts) {
    LeadingRun(s, p.key) && NamesSecret(s[..p.key])
    && Separates(s, p.key, p.sep, p.blanks) && ValueIs(s, p.blanks, p.value, p.end)
  }

  /** An opaque credential: at least twenty characters with a letter and a digit among them. */
  predicate Opaque(run: string) {
    |run| >= 20 && (exists i :: 0 <= i < |run| && Letter(run[i])) && (exists i :: 0 <= i < |run| && Digit(run[i]))
  }

  /** A word of its own within the last ten characters; where these begin counts as its boundary. */
  predicate OwnWordAt(before: string, i: nat, word: string) {
    && |before| - 10 <= i && Spells(before, i, word)
    && (i == 0 || i == |before| - 10 || !Letter(before[i - 1]))
    && (i + |word| == |before| || !Letter(before[i + |word|]))
  }

  predicate HasOwnWord(before: string, word: string) {
    exists i :: 0 <= i <= |before| && OwnWordAt(before, i, word)
  }

  predicate NearAuth(before: string) {
    HasOwnWord(before, "mpin") || HasOwnWord(before, "totp") || HasOwnWord(before, "otp") || HasOwnWord(before, "pin")
  }

  /** A run that is secret for itself, or a short number where one would type a code. */
  predicate Credential(before: string, run: string) {
    Opaque(run) || (4 <= |run| <= 8 && (forall i :: 0 <= i < |run| ==> Digit(run[i])) && NearAuth(before))
  }

  ghost predicate NamesValue(s: string) {
    exists p :: Secret(s, p)
  }

  /** No secret shows at the front of `s`, behind `before`. */
  ghost predicate SafeHere(before: string, s: string) {
    && (forall p :: Secret(s, p) ==> s[p.value..p.end] == "" || s[p.value..p.end] == "***REDACTED***")
    && (forall k: nat :: LeadingRun(s, k) && Credential(before, s[..k]) ==> NamesValue(s))
  }

  predicate RunStart(text: string, i: nat) {
    i < |text| && InKey(text[i]) && (i == 0 || !InKey(text[i - 1]))
  }

  ghost predicate HidesSecrets(text: string) {
    forall i: nat :: RunStart(text, i) ==> SafeHere(text[..i], text[i..])
  }
}
