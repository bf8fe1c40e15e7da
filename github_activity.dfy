/** The GitHub activity viewer's two pieces of logic that do not touch the
    network: the check of the user name given on the command line and the
    rewriting of an event's `created_at` timestamp for display. */
module GithubActivity {
  import opened Wrappers
  import opened PyText

  /** The three messages `validate_user_name` exits with. */
  datatype NameError = ForbiddenCharacter | EmptyName | NameTooLong

  const MaxNameLength: nat := 39

  /** One alternative of the pattern `validate_user_name` searches for: a space,
      one of ``!"#$%&'()*+,./:;<=>?@[]^_`{|}~`` or an upper-case ASCII letter.
      Written as ranges of ASCII: everything from the space to `/` except `-`,
      from `:` to the backquote (which takes in `A`-`Z`) except the backslash,
      and `{` to `~`. */
  predicate ForbiddenChar(c: char) {
    (' ' <= c <= '/' && c != '-') || (':' <= c <= '`' && c != '\\') || ('{' <= c <= '~')
  }

  predicate HasForbiddenChar(name: string) {
    exists i :: 0 <= i < |name| && ForbiddenChar(name[i])
  }

  /** `validate_user_name` after the argument count check: the character search
      comes first, then the empty name, then the length limit. */
  function ValidateUserName(name: string): (r: Result<string, NameError>)
    ensures r.Ok? <==> !HasForbiddenChar(name) && 1 <= |name| <= MaxNameLength
    ensures r.Ok? ==> r.value == name
    ensures r == Err(ForbiddenCharacter) <==> HasForbiddenChar(name)
    ensures r == Err(EmptyName) <==> name == ""
    ensures r == Err(NameTooLong) <==> !HasForbiddenChar(name) && |name| > MaxNameLength
  {
    if HasForbiddenChar(name) then Err(ForbiddenCharacter)
    else if |name| == 0 then Err(EmptyName)
    else if |name| >= 40 then Err(NameTooLong)
    else Ok(name)
  }

  /** The character search wins over the length checks: an over-long name with an
      upper-case letter is reported for the letter. */
  lemma CharacterCheckComesFirst(name: string, i: nat)
    requires i < |name| && 'A' <= name[i] <= 'Z' && |name| >= 40
    ensures ValidateUserName(name) == Err(ForbiddenCharacter)
  {
  }

  /** A 39-character name of allowed characters passes; one more character does not. */
  lemma NameLengthBoundary(name: string, c: char)
    requires |name| == 39 && !HasForbiddenChar(name) && !ForbiddenChar(c)
    ensures ValidateUserName(name) == Ok(name)
    ensures ValidateUserName(name + [c]) == Err(NameTooLong)
  {
    var longer := name + [c];
    forall i | 0 <= i < |longer| ensures !ForbiddenChar(longer[i]) {
      if i < |name| {
        assert longer[i] == name[i];
      }
    }
  }

  /** The pattern misses the backslash, so the check lets through a name that the
      message ("only lower-case letters, 0-9 and '-'") rules out. */
  lemma BackslashSlipsThrough()
    ensures ValidateUserName("a\\b") == Ok("a\\b")
  {
    assert !ForbiddenChar('a') && !ForbiddenChar('\\') && !ForbiddenChar('b');
  }

  /** The characters the message says a user name may contain. */
  predicate AllowedChar(c: char) {
    'a' <= c <= 'z' || IsDigit(c) || c == '-'
  }

  /** The check the message describes: the same order, with the allowed
      characters listed instead of the forbidden ones. */
  function ValidateUserNameIntended(name: string): (r: Result<string, NameError>)
    ensures r.Ok? <==> (forall i :: 0 <= i < |name| ==> AllowedChar(name[i])) && 1 <= |name| <= MaxNameLength
    ensures r.Ok? ==> r.value == name
  {
    if exists i :: 0 <= i < |name| && !AllowedChar(name[i]) then Err(ForbiddenCharacter)
    else if |name| == 0 then Err(EmptyName)
    else if |name| >= 40 then Err(NameTooLong)
    else Ok(name)
  }

  /** The intended check only narrows the written one: every name it accepts the
      written one accepts too, and the backslash name is now refused. */
  lemma IntendedCheckNarrowsWritten(name: string)
    ensures ValidateUserNameIntended(name).Ok? ==> ValidateUserName(name) == Ok(name)
    ensures ValidateUserNameIntended("a\\b") == Err(ForbiddenCharacter)
  {
    assert !AllowedChar("a\\b"[1]);
  }

  /** The end of the run of ASCII digits that starts at `i`. */
  function DigitRunEnd(s: string, i: nat): (j: nat)
    requires i <= |s|
    ensures i <= j <= |s|
    ensures forall k :: i <= k < j ==> IsDigit(s[k])
    ensures j < |s| ==> !IsDigit(s[j])
    decreases |s| - i
  {
    if i < |s| && IsDigit(s[i]) then DigitRunEnd(s, i + 1) else i
  }

  /** A digit run followed by a non-digit (or the end) ends where the run ends. */
  lemma DigitRunEndAt(s: string, i: nat, j: nat)
    requires i <= j <= |s|
    requires forall k :: i <= k < j ==> IsDigit(s[k])
    requires j < |s| ==> !IsDigit(s[j])
    ensures DigitRunEnd(s, i) == j
    decreases j - i
  {
    if i < j {
      DigitRunEndAt(s, i + 1, j);
    }
  }

  /** The separators of `(\d+-0*\d+-0*\d+)T(0*\d+:0*\d+:0*\d+)Z`, in order. */
  const Separators: string := "--T::Z"

  /** The pattern's fields from the start of `w`: a non-empty digit run ended by
      each of `seps` in turn. `0*\d+` matches the same strings as `\d+`, and as
      no separator is a digit, a field can only end where its digit run ends,
      so the match from a given start is unique. */
  function Parts(w: string, seps: string): (r: Option<seq<string>>)
    ensures r.Some? ==> |r.value| == |seps|
    decreases |seps|
  {
    if seps == [] then Some([])
    else
      var j := DigitRunEnd(w, 0);
      if 0 < j < |w| && w[j] == seps[0] then
        match Parts(w[j + 1..], seps[1..])
        case None => None
        case Some(rest) => Some([w[..j]] + rest)
      else None
  }

  /** The pattern's two groups, rebuilt from its six fields. */
  function Groups(f: seq<string>): (string, string)
    requires |f| == 6
  {
    (f[0] + "-" + f[1] + "-" + f[2], f[3] + ":" + f[4] + ":" + f[5])
  }

  /** A match that starts at `p`: the date group and the time group. */
  function MatchAt(s: string, p: nat): (r: Option<(string, string)>)
    requires p <= |s|
  {
    var parts := Parts(s[p..], Separators);
    if parts.Some? then Some(Groups(parts.value)) else None
  }

  /** The leftmost match at or after `p`, the one `re.findall` lists first. */
  function FirstMatch(s: string, p: nat): (r: Option<(nat, (string, string))>)
    requires p <= |s|
    ensures r.Some? ==> p <= r.value.0 <= |s|
    decreases |s| - p
  {
    var m := MatchAt(s, p);
    if m.Some? then Some((p, m.value))
    else if p == |s| then None
    else FirstMatch(s, p + 1)
  }

  /** `FirstMatch` finds the leftmost match, and finds none only when there is none. */
  lemma {:induction false} FirstMatchIsLeftmost(s: string, p: nat)
    requires p <= |s|
    ensures var r := FirstMatch(s, p);
            (r.Some? ==> MatchAt(s, r.value.0) == Some(r.value.1) && forall q :: p <= q < r.value.0 ==> MatchAt(s, q).None?)
            && (r.None? ==> forall q :: p <= q <= |s| ==> MatchAt(s, q).None?)
    decreases |s| - p
  {
    if MatchAt(s, p).None? && p < |s| {
      FirstMatchIsLeftmost(s, p + 1);
    }
  }

  /** `reformat_date`: the two groups of the first match joined by a space, or
      `None` (the function falls off its loop) when nothing matches. */
  function ReformatDate(dateTime: string): (r: Option<string>)
    ensures r.None? <==> forall q :: 0 <= q <= |dateTime| ==> MatchAt(dateTime, q).None?
  {
    FirstMatchIsLeftmost(dateTime, 0);
    var m := FirstMatch(dateTime, 0);
    if m.Some? then Some(m.value.1.0 + " " + m.value.1.1) else None
  }

  /** A non-empty digit run ended by the first separator is the first field. */
  lemma PartsCons(u: string, sep: char, w: string, seps: string, rest: seq<string>)
    requires |u| > 0 && AllDigits(u) && !IsDigit(sep)
    requires Parts(w, seps) == Some(rest)
    ensures Parts(u + [sep] + w, [sep] + seps) == Some([u] + rest)
  {
    var s := u + [sep] + w;
    assert forall k :: 0 <= k < |u| ==> s[k] == u[k];
    DigitRunEndAt(s, 0, |u|);
    assert s[|u|] == sep && s[..|u|] == u && s[|u| + 1..] == w;
    assert ([sep] + seps)[0] == sep && ([sep] + seps)[1..] == seps;
  }

  /** The six fields of a timestamp `YYYY-MM-DDTHH:MM:SSZ` are its digit runs. */
  lemma TimestampParts(year: string, month: string, day: string, hour: string, minute: string, second: string)
    requires |year| > 0 && |month| > 0 && |day| > 0 && |hour| > 0 && |minute| > 0 && |second| > 0
    requires AllDigits(year) && AllDigits(month) && AllDigits(day)
    requires AllDigits(hour) && AllDigits(minute) && AllDigits(second)
    ensures Parts(year + "-" + month + "-" + day + "T" + hour + ":" + minute + ":" + second + "Z", Separators)
            == Some([year, month, day, hour, minute, second])
  {
    var w6: string := second + ['Z'] + [];
    var w5 := minute + [':'] + w6;
    var w4 := hour + [':'] + w5;
    var w3 := day + ['T'] + w4;
    var w2 := month + ['-'] + w3;
    var s := year + ['-'] + w2;
    assert s == year + "-" + month + "-" + day + "T" + hour + ":" + minute + ":" + second + "Z";
    assert Parts([], "") == Some([]);
    assert "Z" == ['Z'] + "" && ":Z" == [':'] + "Z" && "::Z" == [':'] + ":Z";
    assert "T::Z" == ['T'] + "::Z" && "-T::Z" == ['-'] + "T::Z" && Separators == ['-'] + "-T::Z";
    PartsCons(second, 'Z', [], "", []);
    assert [second] + [] == [second];
    PartsCons(minute, ':', w6, "Z", [second]);
    PartsCons(hour, ':', w5, ":Z", [minute] + [second]);
    PartsCons(day, 'T', w4, "::Z", [hour] + ([minute] + [second]));
    PartsCons(month, '-', w3, "T::Z", [day] + ([hour] + ([minute] + [second])));
    PartsCons(year, '-', w2, "-T::Z", [month] + ([day] + ([hour] + ([minute] + [second]))));
    SixFields(year, month, day, hour, minute, second);
  }

  lemma SixFields(a: string, b: string, c: string, d: string, e: string, f: string)
    ensures [a] + ([b] + ([c] + ([d] + ([e] + [f])))) == [a, b, c, d, e, f]
  {
  }

  /** A GitHub timestamp `YYYY-MM-DDTHH:MM:SSZ` (any non-empty digit runs) is shown
      as `YYYY-MM-DD HH:MM:SS`: the `T` becomes a space and the `Z` goes. */
  lemma ReformatTimestamp(year: string, month: string, day: string, hour: string, minute: string, second: string)
    requires |year| > 0 && |month| > 0 && |day| > 0 && |hour| > 0 && |minute| > 0 && |second| > 0
    requires AllDigits(year) && AllDigits(month) && AllDigits(day)
    requires AllDigits(hour) && AllDigits(minute) && AllDigits(second)
    ensures ReformatDate(year + "-" + month + "-" + day + "T" + hour + ":" + minute + ":" + second + "Z")
            == Some(year + "-" + month + "-" + day + " " + hour + ":" + minute + ":" + second)
  {
    var s := year + "-" + month + "-" + day + "T" + hour + ":" + minute + ":" + second + "Z";
    TimestampParts(year, month, day, hour, minute, second);
    assert s[0..] == s;
    var g := Groups([year, month, day, hour, minute, second]);
    assert MatchAt(s, 0) == Some(g);
    FirstMatchWins(s, 0, g);
    JoinFlat(year + "-" + month + "-" + day, hour, minute, second);
  }

  lemma JoinFlat(date: string, hour: string, minute: string, second: string)
    ensures date + " " + (hour + ":" + minute + ":" + second) == date + " " + hour + ":" + minute + ":" + second
  {
  }

  /** Only the first timestamp in the text is returned. */
  lemma FirstMatchWins(s: string, p: nat, g: (string, string))
    requires p <= |s| && MatchAt(s, p) == Some(g)
    requires forall q :: 0 <= q < p ==> MatchAt(s, q).None?
    ensures ReformatDate(s) == Some(g.0 + " " + g.1)
  {
    FirstMatchFrom(s, 0, p);
  }

  lemma FirstMatchFrom(s: string, from: nat, p: nat)
    requires from <= p <= |s| && MatchAt(s, p).Some?
    requires forall q :: from <= q < p ==> MatchAt(s, q).None?
    ensures FirstMatch(s, from) == Some((p, MatchAt(s, p).value))
    decreases p - from
  {
    if from < p {
      FirstMatchFrom(s, from + 1, p);
    }
  }
}
