/** The naming-convention audit `check_users_for_format`
    (ADdump-parse.py:91-104), with its two printed lists returned. */
module Audit {
  import opened Ascii
  import opened Records
  import opened Naming
  import opened GroupStore
  import opened Sequences

  /** The account-control flag whose presence, as a substring of the flags
      field, marks a non-expiring password. */
  const NeverExpiresFlag := "DONT_EXPIRE_PASSWD"

  predicate Conforms(m: Member, formats: seq<string>) {
    CompareSamToCn(m.sam, m.cn, formats)
  }

  predicate NeverExpires(m: Member) {
    Contains(m.flags, NeverExpiresFlag)
  }

  /** The accounts reported as not matching any format, and the matching
      accounts reported for a non-expiring password. */
  datatype AuditReport = AuditReport(flagged: seq<Member>, noted: seq<Member>)

  /** The audit's first test: the row fails the matcher. */
  function FailsMatcher(formats: seq<string>): Member -> bool {
    m => !Conforms(m, formats)
  }

  /** The audit's second test, reached only by rows that pass the matcher:
      the flags field contains the non-expiring marker. */
  function PassesWithNeverExpires(formats: seq<string>): Member -> bool {
    m => Conforms(m, formats) && NeverExpires(m)
  }

  /** The rows that fail the matcher, in order, duplicates kept. */
  function Flagged(rows: seq<Member>, formats: seq<string>): seq<Member> {
    Filter(rows, FailsMatcher(formats))
  }

  /** The rows that pass the matcher and carry the non-expiring flag, in
      order, duplicates kept. */
  function Noted(rows: seq<Member>, formats: seq<string>): seq<Member> {
    Filter(rows, PassesWithNeverExpires(formats))
  }

  /** What the audit reports about one account: it is flagged exactly when
      it is stored and fails the matcher, as often as it is stored; it is
      noted exactly when it is stored, passes and has a non-expiring
      password, as often as it is stored; never both. */
  lemma AuditVerdict(rows: seq<Member>, formats: seq<string>, m: Member)
    ensures m in Flagged(rows, formats) <==> m in rows && !Conforms(m, formats)
    ensures multiset(Flagged(rows, formats))[m] == if Conforms(m, formats) then 0 else multiset(rows)[m]
    ensures m in Noted(rows, formats) <==> m in rows && Conforms(m, formats) && NeverExpires(m)
    ensures multiset(Noted(rows, formats))[m] == if Conforms(m, formats) && NeverExpires(m) then multiset(rows)[m] else 0
    ensures !(m in Flagged(rows, formats) && m in Noted(rows, formats))
  {
    FilterMeaning(rows, FailsMatcher(formats), m);
    FilterMeaning(rows, PassesWithNeverExpires(formats), m);
  }

  /** Flagged and noted rows together never outnumber the stored rows. */
  lemma AuditBound(rows: seq<Member>, formats: seq<string>)
    ensures |Flagged(rows, formats)| + |Noted(rows, formats)| <= |rows|
  {
    FilterExclusiveBound(rows, FailsMatcher(formats), PassesWithNeverExpires(formats));
  }

  /** With no format configured every row is flagged and none is noted,
      which is why the command line runs the audit only when a format was
      given (ADdump-parse.py:138). */
  lemma NoFormatsFlagEverything(rows: seq<Member>)
    ensures Flagged(rows, []) == rows
    ensures Noted(rows, []) == []
  {
    forall i | 0 <= i < |rows|
      ensures !Conforms(rows[i], [])
    {
      MatchNeedsTokensAndFormat(rows[i].sam, rows[i].cn, []);
    }
    FilterAll(rows, FailsMatcher([]));
    FilterNone(rows, PassesWithNeverExpires([]));
  }

  /** One more row extends exactly one of the two lists, or neither. */
  lemma AuditStep(prefix: seq<Member>, m: Member, formats: seq<string>)
    ensures Flagged(prefix + [m], formats) == Flagged(prefix, formats) + (if Conforms(m, formats) then [] else [m])
    ensures Noted(prefix + [m], formats) == Noted(prefix, formats) + (if Conforms(m, formats) && NeverExpires(m) then [m] else [])
  {
    assert (prefix + [m])[..|prefix|] == prefix;
  }

  /** The line printed for a noted account. */
  function NotedLine(m: Member): (r: string)
    ensures |r| == |NotedPrefix| + |m.sam| + 2 + |m.cn| + 1
    ensures r[..|NotedPrefix|] == NotedPrefix
    ensures r[|NotedPrefix|..|NotedPrefix| + |m.sam|] == m.sam
    ensures r[|NotedPrefix| + |m.sam|..|NotedPrefix| + |m.sam| + 2] == " ("
    ensures r[|NotedPrefix| + |m.sam| + 2..|r| - 1] == m.cn
    ensures r[|r| - 1] == ')'
  {
    var a := NotedPrefix + m.sam;
    var b := a + " (";
    var c := b + m.cn;
    assert a[..|NotedPrefix|] == NotedPrefix && a[|NotedPrefix|..] == m.sam;
    assert b[..|a|] == a && b[|a|..] == " (";
    assert c[..|b|] == b && c[|b|..] == m.cn;
    var r := c + ")";
    assert r[..|c|] == c;
    assert r[..|NotedPrefix|] == a[..|NotedPrefix|];
    assert r[|NotedPrefix|..|a|] == a[|NotedPrefix|..];
    assert r[|a|..|b|] == b[|a|..];
    assert r[|b|..|r| - 1] == c[|b|..];
    r
  }

  const NotedPrefix := "Potential standard account with non-expiring password: "

  const FlaggedHeader := "Flagged accounts that don't match specified formats:"

  /** Everything the audit prints, one element per `print` call: the noted
      lines in the order the walk meets them, then, only when something was
      flagged, the header after an empty line and one line per flagged
      account. */
  function AuditOutput(report: AuditReport): (out: seq<string>)
    ensures |out| == |report.noted| + (if report.flagged == [] then 0 else 1 + |report.flagged|)
    ensures forall i :: 0 <= i < |report.noted| ==> out[i] == NotedLine(report.noted[i])
    ensures report.flagged != [] ==> out[|report.noted|] == "\n" + FlaggedHeader
    ensures forall i :: 0 <= i < |report.flagged| ==> out[|report.noted| + 1 + i] == DetailLine(report.flagged[i])
  {
    var noted := seq(|report.noted|, i requires 0 <= i < |report.noted| => NotedLine(report.noted[i]));
    var flagged := seq(|report.flagged|, i requires 0 <= i < |report.flagged| => DetailLine(report.flagged[i]));
    if report.flagged == [] then noted else noted + ["\n" + FlaggedHeader] + flagged
  }

  /** The inner loop of `check_users_for_format` over one group's rows,
      extending the two lists built so far. */
  method AuditRows(rows: seq<Member>, formats: seq<string>, done: seq<Member>, flagged0: seq<Member>, noted0: seq<Member>)
    returns (flagged: seq<Member>, noted: seq<Member>)
    requires flagged0 == Flagged(done, formats) && noted0 == Noted(done, formats)
    ensures flagged == Flagged(done + rows, formats)
    ensures noted == Noted(done + rows, formats)
  {
    flagged, noted := flagged0, noted0;
    ghost var seen := done;
    var j := 0;
    while j < |rows|
      invariant 0 <= j <= |rows|
      invariant seen == done + rows[..j]
      invariant flagged == Flagged(seen, formats)
      invariant noted == Noted(seen, formats)
    {
      var m := rows[j];
      PrefixExtend(done, rows, j);
      AuditStep(seen, m, formats);
      if !CompareSamToCn(m.sam, m.cn, formats) {
        flagged := flagged + [m];
      } else if Contains(m.flags, NeverExpiresFlag) {
        noted := noted + [m];
      }
      seen := seen + [m];
      j := j + 1;
    }
    assert rows[..j] == rows;
  }

  /** `check_users_for_format`: walk every stored row group by group; a row
      failing the matcher is flagged, otherwise (the `elif`) it is noted if
      its flags contain the non-expiring marker. */
  method CheckUsersForFormat(st: Store, formats: seq<string>) returns (report: AuditReport)
    ensures report.flagged == Flagged(AllRows(st), formats)
    ensures report.noted == Noted(AllRows(st), formats)
    ensures forall m :: m in report.flagged ==> m in AllRows(st) && !Conforms(m, formats)
    ensures forall m :: m in report.noted ==> m in AllRows(st) && Conforms(m, formats) && NeverExpires(m)
    ensures forall m :: !(m in report.flagged && m in report.noted)
    ensures |report.flagged| + |report.noted| <= |AllRows(st)|
  {
    var flagged: seq<Member> := [];
    var noted: seq<Member> := [];
    var g := 0;
    while g < |st|
      invariant 0 <= g <= |st|
      invariant flagged == Flagged(AllRows(st[..g]), formats)
      invariant noted == Noted(AllRows(st[..g]), formats)
    {
      flagged, noted := AuditRows(st[g].rows, formats, AllRows(st[..g]), flagged, noted);
      assert st[..g + 1][..g] == st[..g];
      g := g + 1;
    }
    assert st[..g] == st;
    AuditBound(AllRows(st), formats);
    forall m
      ensures m in flagged ==> m in AllRows(st) && !Conforms(m, formats)
      ensures m in noted ==> m in AllRows(st) && Conforms(m, formats) && NeverExpires(m)
    {
      AuditVerdict(AllRows(st), formats, m);
    }
    report := AuditReport(flagged, noted);
  }

}
