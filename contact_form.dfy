/**
 * The client-side checks of the contact form: the trimming of a field's text, the e-mail
 * pattern `^[^\s@]+@[^\s@]+\.[^\s@]+$` as an explicit character-level automaton, the
 * verdict for one field (on blur) and the verdict for the whole form (on submit).
 */
module ContactForm {
  import opened Options

  // ---------------------------------------------------------------------------------------
  // Characters
  // ---------------------------------------------------------------------------------------

  /**
   * The ECMAScript white-space and line-terminator code points: the class `\s` matches
   * them and `String.prototype.trim` strips them.
   */
  predicate IsSpace(c: char) {
    var n := c as int;
    n == 0x09 || n == 0x0A || n == 0x0B || n == 0x0C || n == 0x0D || n == 0x20 ||
    n == 0xA0 || n == 0x1680 || (0x2000 <= n <= 0x200A) || n == 0x2028 || n == 0x2029 ||
    n == 0x202F || n == 0x205F || n == 0x3000 || n == 0xFEFF
  }

  predicate AllSpace(s: string) {
    forall k :: 0 <= k < |s| ==> IsSpace(s[k])
  }

  predicate NoSpace(s: string) {
    forall k :: 0 <= k < |s| ==> !IsSpace(s[k])
  }

  predicate NoAt(s: string) {
    forall k :: 0 <= k < |s| ==> s[k] != '@'
  }

  /** Every character is in the class `[^\s@]`. */
  predicate Plain(s: string) {
    NoSpace(s) && NoAt(s)
  }

  // ---------------------------------------------------------------------------------------
  // Trimming
  // ---------------------------------------------------------------------------------------

  /** The length of the run of white space in `s` that starts at index `lo`. */
  function LeadingSpaces(s: string, lo: nat): (n: nat)
    requires lo <= |s|
    ensures lo + n <= |s|
    decreases |s| - lo
  {
    if lo < |s| && IsSpace(s[lo]) then LeadingSpaces(s, lo + 1) + 1 else 0
  }

  /** The length of the run of white space in `s` that ends just before index `hi`, going no lower than `lo`. */
  function TrailingSpaces(s: string, lo: nat, hi: nat): (n: nat)
    requires lo <= hi <= |s|
    ensures lo + n <= hi
  {
    if lo < hi && IsSpace(s[hi - 1]) then TrailingSpaces(s, lo, hi - 1) + 1 else 0
  }

  /** `LeadingSpaces` counts white space only, and stops at the first other character. */
  lemma {:induction false} LeadingSpacesRun(s: string, lo: nat)
    requires lo <= |s|
    ensures forall k :: lo <= k < lo + LeadingSpaces(s, lo) ==> IsSpace(s[k])
    ensures lo + LeadingSpaces(s, lo) < |s| ==> !IsSpace(s[lo + LeadingSpaces(s, lo)])
    decreases |s| - lo
  {
    if lo < |s| && IsSpace(s[lo]) {
      LeadingSpacesRun(s, lo + 1);
    }
  }

  /** `TrailingSpaces` counts white space only, and stops at the last other character above `lo`. */
  lemma {:induction false} TrailingSpacesRun(s: string, lo: nat, hi: nat)
    requires lo <= hi <= |s|
    ensures forall k :: hi - TrailingSpaces(s, lo, hi) <= k < hi ==> IsSpace(s[k])
    ensures lo + TrailingSpaces(s, lo, hi) < hi ==> !IsSpace(s[hi - TrailingSpaces(s, lo, hi) - 1])
  {
    if lo < hi && IsSpace(s[hi - 1]) {
      TrailingSpacesRun(s, lo, hi - 1);
    }
  }

  /** `value.trim()`: what is left between the leading and the trailing white space. */
  function Trim(s: string): (r: string)
    ensures |r| <= |s|
  {
    var a := LeadingSpaces(s, 0);
    s[a..|s| - TrailingSpaces(s, a, |s|)]
  }

  /** The result of `Trim` is the run of characters of `s` that starts right after the leading white space. */
  lemma TrimIsInfix(s: string)
    ensures LeadingSpaces(s, 0) + |Trim(s)| <= |s|
    ensures forall k :: 0 <= k < |Trim(s)| ==> Trim(s)[k] == s[LeadingSpaces(s, 0) + k]
  {
    var a := LeadingSpaces(s, 0);
    var r := Trim(s);
    assert r == s[a..|s| - TrailingSpaces(s, a, |s|)];
  }

  /** Every character that `Trim` drops, before or after what it keeps, is white space. */
  lemma TrimDropsSpace(s: string)
    ensures forall k :: 0 <= k < LeadingSpaces(s, 0) ==> IsSpace(s[k])
    ensures forall k :: LeadingSpaces(s, 0) + |Trim(s)| <= k < |s| ==> IsSpace(s[k])
  {
    var a := LeadingSpaces(s, 0);
    var b := TrailingSpaces(s, a, |s|);
    assert |Trim(s)| == |s| - b - a;
    LeadingSpacesRun(s, 0);
    TrailingSpacesRun(s, a, |s|);
  }

  /** What `Trim` keeps neither starts nor ends with white space. */
  lemma TrimEnds(s: string)
    ensures Trim(s) == [] || (!IsSpace(Trim(s)[0]) && !IsSpace(Trim(s)[|Trim(s)| - 1]))
  {
    var a := LeadingSpaces(s, 0);
    var b := TrailingSpaces(s, a, |s|);
    LeadingSpacesRun(s, 0);
    TrailingSpacesRun(s, a, |s|);
    var r := Trim(s);
    assert r == s[a..|s| - b];
    if r != [] {
      assert r[0] == s[a] && r[|r| - 1] == s[|s| - b - 1];
    }
  }

  /** `Trim` leaves nothing exactly when the input is all white space. */
  lemma TrimEmptyIffAllSpace(s: string)
    ensures Trim(s) == [] <==> AllSpace(s)
  {
    var a := LeadingSpaces(s, 0);
    var b := TrailingSpaces(s, a, |s|);
    LeadingSpacesRun(s, 0);
    TrailingSpacesRun(s, a, |s|);
    assert |Trim(s)| == |s| - b - a;
  }

  // ---------------------------------------------------------------------------------------
  // The e-mail pattern as an automaton
  // ---------------------------------------------------------------------------------------

  /**
   * What has been read so far: nothing; a non-empty local part; the '@'; a non-empty
   * domain with no usable dot yet; a domain whose last character is a usable dot; a
   * complete address (a usable dot followed by at least one character); a dead end.
   */
  datatype ScanState = Start | Local | AfterAt | Host | HostDot | Accept | Reject

  /**
   * One character of the automaton. A dot is usable only after at least one domain character.
   * White space always leads to the dead end, which is never left; an '@' is accepted only
   * right after a non-empty local part; no character leads back to the start.
   */
  function Next(st: ScanState, c: char): (r: ScanState)
    ensures IsSpace(c) || st == Reject ==> r == Reject
    ensures c == '@' ==> (r != Reject <==> st == Local && !IsSpace(c))
    ensures r != Start
  {
    if IsSpace(c) then Reject
    else match st
      case Start => if c == '@' then Reject else Local
      case Local => if c == '@' then AfterAt else Local
      case AfterAt => if c == '@' then Reject else Host
      case Host => if c == '@' then Reject else if c == '.' then HostDot else Host
      case HostDot => if c == '@' then Reject else Accept
      case Accept => if c == '@' then Reject else Accept
      case Reject => Reject
  }

  /** The automaton run over a whole string, one character at a time from the left; only the empty string leaves it at the start. */
  function Scan(s: string): (st: ScanState)
    ensures st == Start <==> s == []
  {
    if s == [] then Start else Next(Scan(s[..|s| - 1]), s[|s| - 1])
  }

  /** `isValidEmail`: the pattern matches the whole string. */
  predicate IsValidEmail(s: string) {
    Scan(s) == Accept
  }

  // ---------------------------------------------------------------------------------------
  // What the pattern means
  // ---------------------------------------------------------------------------------------

  /** `s[i]` is the one and only '@' of `s`. */
  predicate OnlyAt(s: string, i: int) {
    0 <= i < |s| && s[i] == '@' && NoAt(s[..i]) && NoAt(s[i + 1..])
  }

  /** `d` has a '.' that is neither its first nor its last character. */
  predicate InnerDot(d: string) {
    exists k :: 0 < k < |d| - 1 && d[k] == '.'
  }

  /**
   * The four conditions of a valid address: no white space, exactly one '@', a non-empty
   * part before it, and a part after it holding a dot that is neither first nor last.
   */
  predicate EmailShape(s: string) {
    NoSpace(s) && exists i :: 0 < i < |s| && OnlyAt(s, i) && InnerDot(s[i + 1..])
  }

  /** The pattern read literally: `[^\s@]+`, '@', `[^\s@]+`, '.', `[^\s@]+`, covering the whole string. */
  predicate PatternMatch(s: string) {
    exists i, j :: 0 < i < |s| && i + 1 < j < |s| - 1 && s[i] == '@' && s[j] == '.' &&
      Plain(s[..i]) && Plain(s[i + 1..j]) && Plain(s[j + 1..])
  }

  /** The state the automaton should be in after reading the domain part `d`. */
  function DomainState(d: string): (st: ScanState)
    ensures st in {AfterAt, Host, HostDot, Accept}
  {
    if d == [] then AfterAt
    else if InnerDot(d) then Accept
    else if |d| >= 2 && d[|d| - 1] == '.' then HostDot
    else Host
  }

  /** The state the automaton should be in after reading `t`, stated without running it. */
  ghost function Expected(t: string): ScanState {
    if !NoSpace(t) then Reject
    else if NoAt(t) then (if t == [] then Start else Local)
    else if exists i :: OnlyAt(t, i) then
      var i :| OnlyAt(t, i);
      if i == 0 then Reject else DomainState(t[i + 1..])
    else Reject
  }

  lemma OnlyAtUnique(t: string, i: int, i': int)
    requires OnlyAt(t, i) && OnlyAt(t, i')
    ensures i == i'
  {
  }

  /** An '@' that is the only one in `t + [c]` and lies inside `t` is the only one in `t`. */
  lemma OnlyAtOfSnoc(t: string, c: char, i: int)
    requires OnlyAt(t + [c], i) && i < |t|
    ensures OnlyAt(t, i)
  {
    var t' := t + [c];
    assert t[..i] == t'[..i];
    var tail, tail' := t[i + 1..], t'[i + 1..];
    forall k | 0 <= k < |tail| ensures tail[k] != '@' {
      assert tail[k] == tail'[k];
    }
  }

  /** Reading a character that is neither white space nor '@' moves the domain state by one automaton step. */
  lemma {:induction false} DomainStep(d: string, c: char)
    requires !IsSpace(c) && c != '@'
    ensures DomainState(d + [c]) == Next(DomainState(d), c)
  {
    var d' := d + [c];
    if d == [] {
      assert d' == [c];
      assert !InnerDot(d');
    } else if InnerDot(d) {
      var k :| 0 < k < |d| - 1 && d[k] == '.';
      assert d'[k] == '.';
    } else if |d| >= 2 && d[|d| - 1] == '.' {
      assert d'[|d| - 1] == '.';
      assert InnerDot(d');
    } else {
      assert d'[|d'| - 1] == c;
    }
  }

  /** With a single '@' at `i`, the stated state is read off the domain part after it. */
  lemma ExpectedAt(t: string, i: int)
    requires NoSpace(t) && OnlyAt(t, i)
    ensures Expected(t) == if i == 0 then Reject else DomainState(t[i + 1..])
  {
    assert t[i] == '@';
    var i0 :| OnlyAt(t, i0);
    OnlyAtUnique(t, i0, i);
  }

  /** Once white space has been read, the stated state is the dead end. */
  lemma ExpectedStepSpace(t: string, c: char)
    requires IsSpace(c) || !NoSpace(t)
    ensures Expected(t + [c]) == Reject
  {
    var t' := t + [c];
    if IsSpace(c) {
      assert t'[|t|] == c;
    } else {
      var k :| 0 <= k < |t| && IsSpace(t[k]);
      assert t'[k] == t[k];
    }
  }

  /** Stepping from a string with no '@': the local part grows, or the '@' is read. */
  lemma ExpectedStepNoAt(t: string, c: char)
    requires NoSpace(t) && NoAt(t) && !IsSpace(c)
    ensures Expected(t + [c]) == Next(Expected(t), c)
  {
    var t' := t + [c];
    assert t'[..|t|] == t;
    assert NoSpace(t');
    if c == '@' {
      assert t'[|t| + 1..] == [];
      assert OnlyAt(t', |t|);
      ExpectedAt(t', |t|);
    } else {
      assert NoAt(t');
    }
  }

  /** Stepping from a string with a single '@' at `i`: a second '@' kills it, anything else extends the domain. */
  lemma ExpectedStepOneAt(t: string, c: char, i: int)
    requires NoSpace(t) && OnlyAt(t, i) && !IsSpace(c)
    ensures Expected(t + [c]) == Next(Expected(t), c)
  {
    var t' := t + [c];
    assert t'[..|t|] == t;
    assert NoSpace(t');
    ExpectedAt(t, i);
    if c == '@' {
      assert t'[|t|] == '@' && t'[i] == '@';
      if exists j :: OnlyAt(t', j) {
        var j :| OnlyAt(t', j);
        if j < |t| {
          OnlyAtOfSnoc(t, c, j);
          OnlyAtUnique(t, i, j);
        }
        assert false;
      }
    } else {
      assert t'[..i] == t[..i];
      assert t'[i + 1..] == t[i + 1..] + [c];
      assert OnlyAt(t', i);
      ExpectedAt(t', i);
      if i != 0 {
        DomainStep(t[i + 1..], c);
      }
    }
  }

  /** Stepping from a string with two '@' or more: still the dead end. */
  lemma ExpectedStepManyAt(t: string, c: char)
    requires NoSpace(t) && !NoAt(t) && !IsSpace(c)
    requires forall i :: !OnlyAt(t, i)
    ensures Expected(t + [c]) == Reject
  {
    var t' := t + [c];
    assert t'[..|t|] == t;
    var k :| 0 <= k < |t| && t[k] == '@';
    assert t'[k] == '@';
    if exists j :: OnlyAt(t', j) {
      var j :| OnlyAt(t', j);
      if j < |t| {
        OnlyAtOfSnoc(t, c, j);
      }
      assert false;
    }
  }

  /** The stated meaning of the states advances exactly as the automaton does. */
  lemma ExpectedStep(t: string, c: char)
    ensures Expected(t + [c]) == Next(Expected(t), c)
  {
    if IsSpace(c) || !NoSpace(t) {
      ExpectedStepSpace(t, c);
    } else if NoAt(t) {
      ExpectedStepNoAt(t, c);
    } else if exists i :: OnlyAt(t, i) {
      var i :| OnlyAt(t, i);
      ExpectedStepOneAt(t, c, i);
    } else {
      ExpectedStepManyAt(t, c);
    }
  }

  /** The automaton is always in the state its reading of the input calls for. */
  lemma {:induction false} ScanIsExpected(t: string)
    ensures Scan(t) == Expected(t)
  {
    if t != [] {
      var init := t[..|t| - 1];
      ScanIsExpected(init);
      assert init + [t[|t| - 1]] == t;
      ExpectedStep(init, t[|t| - 1]);
    } else {
      assert NoAt(t);
    }
  }

  /** `isValidEmail` accepts exactly the strings with the four conditions of a valid address. */
  lemma ValidEmailIffShape(s: string)
    ensures IsValidEmail(s) <==> EmailShape(s)
  {
    ScanIsExpected(s);
    if EmailShape(s) {
      var i :| 0 < i < |s| && OnlyAt(s, i) && InnerDot(s[i + 1..]);
      assert s[i] == '@';
      var i' :| OnlyAt(s, i');
      OnlyAtUnique(s, i, i');
    }
    if Expected(s) == Accept {
      assert !NoAt(s) && exists i :: OnlyAt(s, i);
      var i :| OnlyAt(s, i);
      OnlyAtUnique(s, i, i);
      assert i != 0 && DomainState(s[i + 1..]) == Accept;
    }
  }

  /** The four conditions say the same as the pattern read literally. */
  lemma ShapeIffPattern(s: string)
    ensures EmailShape(s) <==> PatternMatch(s)
  {
    if EmailShape(s) {
      ShapeGivesPattern(s);
    }
    if PatternMatch(s) {
      PatternGivesShape(s);
    }
  }

  /** Besides the only '@' at `i`, no character of `s` is an '@'. */
  lemma OnlyAtChars(s: string, i: int)
    requires OnlyAt(s, i)
    ensures forall m :: 0 <= m < |s| && m != i ==> s[m] != '@'
  {
    var before, after := s[..i], s[i + 1..];
    forall m | 0 <= m < |s| && m != i
      ensures s[m] != '@'
    {
      if m < i {
        assert s[m] == before[m];
      } else {
        assert s[m] == after[m - i - 1];
      }
    }
  }

  /** A slice of characters that are neither white space nor '@' is plain. */
  lemma SliceIsPlain(s: string, lo: nat, hi: nat)
    requires lo <= hi <= |s|
    requires forall m :: lo <= m < hi ==> !IsSpace(s[m]) && s[m] != '@'
    ensures Plain(s[lo..hi])
  {
    var part := s[lo..hi];
    forall m | 0 <= m < |part|
      ensures !IsSpace(part[m]) && part[m] != '@'
    {
      assert part[m] == s[lo + m];
    }
  }

  lemma ShapeGivesPattern(s: string)
    requires EmailShape(s)
    ensures PatternMatch(s)
  {
    var i :| 0 < i < |s| && OnlyAt(s, i) && InnerDot(s[i + 1..]);
    var d := s[i + 1..];
    var k :| 0 < k < |d| - 1 && d[k] == '.';
    var j := i + 1 + k;
    assert s[j] == d[k];
    OnlyAtChars(s, i);
    SliceIsPlain(s, 0, i);
    SliceIsPlain(s, i + 1, j);
    SliceIsPlain(s, j + 1, |s|);
  }

  /** A character of `s[lo..hi]` is a character of `s`, so a plain slice holds no white space and no '@'. */
  lemma PlainSliceChars(s: string, lo: nat, hi: nat)
    requires lo <= hi <= |s| && Plain(s[lo..hi])
    ensures forall m :: lo <= m < hi ==> !IsSpace(s[m]) && s[m] != '@'
  {
    var part := s[lo..hi];
    forall m | lo <= m < hi
      ensures !IsSpace(s[m]) && s[m] != '@'
    {
      assert part[m - lo] == s[m];
    }
  }

  /** An '@' at `i` with no other '@' anywhere in `s` is the only one. */
  lemma SoleAt(s: string, i: nat)
    requires i < |s| && s[i] == '@'
    requires forall m :: 0 <= m < |s| && m != i ==> s[m] != '@'
    ensures OnlyAt(s, i)
  {
    var before, after := s[..i], s[i + 1..];
    forall m | 0 <= m < |before| ensures before[m] != '@' {
      assert before[m] == s[m];
    }
    forall m | 0 <= m < |after| ensures after[m] != '@' {
      assert after[m] == s[i + 1 + m];
    }
  }

  /** The characters of a string split as the pattern demands: no white space, and no '@' but the one at `i`. */
  lemma PatternChars(s: string, i: nat, j: nat)
    requires i < j < |s| && s[i] == '@' && s[j] == '.'
    requires Plain(s[..i]) && Plain(s[i + 1..j]) && Plain(s[j + 1..])
    ensures NoSpace(s)
    ensures forall m :: 0 <= m < |s| && m != i ==> s[m] != '@'
  {
    PlainSliceChars(s, 0, i);
    PlainSliceChars(s, i + 1, j);
    PlainSliceChars(s, j + 1, |s|);
    forall m | 0 <= m < |s|
      ensures !IsSpace(s[m]) && (m != i ==> s[m] != '@')
    {
      if m == i {
        assert s[m] == '@';
      } else if m == j {
        assert s[m] == '.';
      }
    }
  }

  lemma PatternGivesShape(s: string)
    requires PatternMatch(s)
    ensures EmailShape(s)
  {
    var i, j :| 0 < i < |s| && i + 1 < j < |s| - 1 && s[i] == '@' && s[j] == '.' &&
      Plain(s[..i]) && Plain(s[i + 1..j]) && Plain(s[j + 1..]);
    PatternChars(s, i, j);
    SoleAt(s, i);
    var d := s[i + 1..];
    assert d[j - i - 1] == '.';
  }

  lemma ScanSnoc(t: string, c: char)
    ensures Scan(t + [c]) == Next(Scan(t), c)
  {
    assert (t + [c])[..|t|] == t;
  }

  /** The shortest kind of address the pattern accepts. */
  lemma ShortestValidEmail()
    ensures IsValidEmail("a@b.c")
  {
    var s: string := [];
    ScanSnoc(s, 'a');
    s := s + ['a'];
    assert Scan(s) == Local;
    ScanSnoc(s, '@');
    s := s + ['@'];
    assert Scan(s) == AfterAt;
    ScanSnoc(s, 'b');
    s := s + ['b'];
    assert Scan(s) == Host;
    ScanSnoc(s, '.');
    s := s + ['.'];
    assert Scan(s) == HostDot;
    ScanSnoc(s, 'c');
    s := s + ['c'];
    assert Scan(s) == Accept;
    assert s == "a@b.c";
  }

  /** A dot with nothing after it is not enough. */
  lemma EmailWithoutTopLevel()
    ensures !IsValidEmail("a@b.")
  {
    var s: string := [];
    ScanSnoc(s, 'a');
    s := s + ['a'];
    assert Scan(s) == Local;
    ScanSnoc(s, '@');
    s := s + ['@'];
    assert Scan(s) == AfterAt;
    ScanSnoc(s, 'b');
    s := s + ['b'];
    assert Scan(s) == Host;
    ScanSnoc(s, '.');
    s := s + ['.'];
    assert Scan(s) == HostDot;
    assert s == "a@b.";
  }

  /** The dot may not follow the '@' directly. */
  lemma EmailWithEmptyHost()
    ensures !IsValidEmail("a@.c")
  {
    var s: string := [];
    ScanSnoc(s, 'a');
    s := s + ['a'];
    assert Scan(s) == Local;
    ScanSnoc(s, '@');
    s := s + ['@'];
    assert Scan(s) == AfterAt;
    ScanSnoc(s, '.');
    s := s + ['.'];
    assert Scan(s) == Host;
    ScanSnoc(s, 'c');
    s := s + ['c'];
    assert Scan(s) == Host;
    assert s == "a@.c";
  }

  /** White space is never allowed. */
  lemma EmailWithSpace()
    ensures !IsValidEmail("a b@c")
  {
    var s: string := [];
    ScanSnoc(s, 'a');
    s := s + ['a'];
    assert Scan(s) == Local;
    ScanSnoc(s, ' ');
    s := s + [' '];
    assert Scan(s) == Reject;
    ScanSnoc(s, 'b');
    s := s + ['b'];
    assert Scan(s) == Reject;
    ScanSnoc(s, '@');
    s := s + ['@'];
    assert Scan(s) == Reject;
    ScanSnoc(s, 'c');
    s := s + ['c'];
    assert Scan(s) == Reject;
    assert s == "a b@c";
  }

  // ---------------------------------------------------------------------------------------
  // Field and form verdicts
  // ---------------------------------------------------------------------------------------

  /** A form control as the checks see it: its raw text, its `required` attribute, whether its type is email. */
  datatype Field = Field(value: string, required: bool, isEmail: bool)

  datatype FieldError = Required | InvalidEmail

  /** Pass clears the field's error; Fail shows the error's message under the field. */
  datatype Verdict = Pass | Fail(error: FieldError)

  /** The message shown for each error. */
  function Message(e: FieldError): (m: string)
    ensures m != []
  {
    match e
    case Required => "Ce champ est requis"
    case InvalidEmail => "Adresse email invalide"
  }

  /** What the page shows under a field after its check: nothing when it passes, else the error's message. */
  function ShownError(v: Verdict): (shown: Option<string>)
    ensures shown.None? <==> v == Pass
    ensures shown.Some? ==> shown.value != []
  {
    match v
    case Pass => None
    case Fail(e) => Some(Message(e))
  }

  /** The "required" message appears under a field exactly when it is required and all white space. */
  lemma RequiredMessageShown(f: Field)
    ensures ShownError(ValidateField(f)) == Some(Message(Required)) <==> f.required && AllSpace(f.value)
  {
    ValidateFieldVerdicts(f);
    assert Message(Required) != Message(InvalidEmail);
  }

  /** The "invalid address" message appears under a non-blank e-mail field exactly when the trimmed value lacks the shape of an address. */
  lemma InvalidEmailMessageShown(f: Field)
    requires f.isEmail && !AllSpace(f.value)
    ensures ShownError(ValidateField(f)) == Some(Message(InvalidEmail)) <==> !EmailShape(Trim(f.value))
  {
    ValidateFieldVerdicts(f);
    assert Message(Required) != Message(InvalidEmail);
  }

  /**
   * `validateField`: a required field holding only white space is missing; otherwise an
   * e-mail field holding something that is not a valid address is invalid; otherwise it passes.
   */
  function ValidateField(f: Field): Verdict {
    var value := Trim(f.value);
    if f.required && value == [] then Fail(Required)
    else if f.isEmail && value != [] && !IsValidEmail(value) then Fail(InvalidEmail)
    else Pass
  }

  /** What each verdict of `ValidateField` means for the field's raw text. */
  lemma ValidateFieldVerdicts(f: Field)
    ensures ValidateField(f) == Fail(Required) <==> f.required && AllSpace(f.value)
    ensures ValidateField(f) == Fail(InvalidEmail) <==>
      !(f.required && AllSpace(f.value)) && f.isEmail && !AllSpace(f.value) && !EmailShape(Trim(f.value))
    ensures ValidateField(f) == Pass <==>
      (f.required ==> !AllSpace(f.value)) && (f.isEmail && !AllSpace(f.value) ==> EmailShape(Trim(f.value)))
  {
    TrimEmptyIffAllSpace(f.value);
    ValidEmailIffShape(Trim(f.value));
  }

  /** The check the submit handler applies to each required field. */
  function FormFieldCheck(f: Field): Verdict {
    var value := Trim(f.value);
    if value == [] then Fail(Required)
    else if f.isEmail && !IsValidEmail(value) then Fail(InvalidEmail)
    else Pass
  }

  /** On a required field, the submit check and the blur check agree. */
  lemma FormCheckIsFieldCheck(f: Field)
    requires f.required
    ensures FormFieldCheck(f) == ValidateField(f)
  {
  }

  /** What the submit check does to one field: a verdict for a required field, nothing for another. */
  function FieldReport(f: Field): Option<Verdict> {
    if f.required then Some(ValidateField(f)) else None
  }

  /** The verdicts of the submit check, field by field in document order. */
  function FormReport(fields: seq<Field>): (r: seq<Option<Verdict>>)
    ensures |r| == |fields|
  {
    if fields == [] then [] else FormReport(fields[..|fields| - 1]) + [FieldReport(fields[|fields| - 1])]
  }

  /** Whether every required field among `fields` passes, accumulated field by field. */
  function AllRequiredPass(fields: seq<Field>): bool {
    if fields == [] then true
    else
      var last := FieldReport(fields[|fields| - 1]);
      AllRequiredPass(fields[..|fields| - 1]) && last != Some(Fail(Required)) && last != Some(Fail(InvalidEmail))
  }

  /** Each required field gets its `validateField` verdict, and no other field is touched. */
  lemma {:induction false} FormReportAt(fields: seq<Field>, k: nat)
    requires k < |fields|
    ensures FormReport(fields)[k] == if fields[k].required then Some(ValidateField(fields[k])) else None
  {
    var init := fields[..|fields| - 1];
    if k < |fields| - 1 {
      FormReportAt(init, k);
      assert init[k] == fields[k];
    }
  }

  /** `FormReportAt` for every position at once. */
  lemma FormReportMeans(fields: seq<Field>)
    ensures forall k :: 0 <= k < |fields| ==>
      FormReport(fields)[k] == if fields[k].required then Some(ValidateField(fields[k])) else None
  {
    forall k | 0 <= k < |fields| {
      FormReportAt(fields, k);
    }
  }

  /** The form is valid exactly when every required field passes `validateField`. */
  lemma {:induction false} AllRequiredPassMeans(fields: seq<Field>)
    ensures AllRequiredPass(fields) <==>
      forall k :: 0 <= k < |fields| && fields[k].required ==> ValidateField(fields[k]) == Pass
  {
    if fields != [] {
      var init := fields[..|fields| - 1];
      AllRequiredPassMeans(init);
      assert forall k :: 0 <= k < |init| ==> init[k] == fields[k];
    }
  }

  /**
   * `validateForm`: every required field is checked in order (each gets its error shown or
   * cleared, none is skipped), other fields are left untouched, and the form is valid
   * exactly when every required field passes.
   */
  method ValidateForm(fields: seq<Field>) returns (isValid: bool, report: seq<Option<Verdict>>)
    ensures report == FormReport(fields)
    ensures isValid == AllRequiredPass(fields)
    ensures forall k :: 0 <= k < |fields| ==>
      report[k] == if fields[k].required then Some(ValidateField(fields[k])) else None
    ensures isValid <==> forall k :: 0 <= k < |fields| && fields[k].required ==> ValidateField(fields[k]) == Pass
  {
    isValid := true;
    report := [];
    for k := 0 to |fields|
      invariant report == FormReport(fields[..k])
      invariant isValid == AllRequiredPass(fields[..k])
    {
      var field := fields[k];
      assert fields[..k + 1][..k] == fields[..k];
      if field.required {
        var verdict := FormFieldCheck(field);
        FormCheckIsFieldCheck(field);
        if verdict != Pass {
          isValid := false;
        }
        report := report + [Some(verdict)];
      } else {
        report := report + [None];
      }
    }
    assert fields[..|fields|] == fields;
    FormReportMeans(fields);
    AllRequiredPassMeans(fields);
  }
}
