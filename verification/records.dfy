/** The member rows the parser keeps, and the order Python's `sorted` puts
    them in. */
module Records {
  import opened LexOrder

  /** The seven fields one match of the user-row pattern captures, in
      column order (ADdump-parse.py:13, 32). */
  datatype RowCapture = RowCapture(
    cn: string, name: string, sam: string,
    createdOn: string, changedOn: string, lastLogon: string, flags: string)

  /** The stored tuple `(cn, sam_name, flags)`. */
  datatype Member = Member(cn: string, sam: string, flags: string)

  /** The projection kept from a capture: columns 0, 2 and 6. */
  function Project(c: RowCapture): Member {
    Member(c.cn, c.sam, c.flags)
  }

  function ProjectAll(cs: seq<RowCapture>): (r: seq<Member>)
    ensures |r| == |cs|
    ensures forall i :: 0 <= i < |cs| ==> r[i] == Project(cs[i])
  {
    if cs == [] then [] else [Project(cs[0])] + ProjectAll(cs[1..])
  }

  /** The line `sam (cn) - Flags: flags` both the detailed member listing
      and the audit's flagged report print. */
  function DetailLine(m: Member): (r: string)
    ensures |r| == |m.sam| + 2 + |m.cn| + 11 + |m.flags|
    ensures r[..|m.sam|] == m.sam
    ensures r[|m.sam|..|m.sam| + 2] == " ("
    ensures r[|m.sam| + 2..|m.sam| + 2 + |m.cn|] == m.cn
    ensures r[|m.sam| + 2 + |m.cn|..|r| - |m.flags|] == ") - Flags: "
    ensures r[|r| - |m.flags|..] == m.flags
  {
    var a := m.sam + " (";
    var b := a + m.cn;
    var c := b + ") - Flags: ";
    assert a[..|m.sam|] == m.sam;
    assert b[..|m.sam|] == m.sam && b[|m.sam|..|m.sam| + 2] == " (" && b[|m.sam| + 2..] == m.cn;
    assert c[..|b|] == b && c[|b|..] == ") - Flags: ";
    var r := c + m.flags;
    assert r[..|c|] == c && r[|c|..] == m.flags;
    assert r[..|m.sam|] == c[..|m.sam|];
    assert r[|m.sam|..|m.sam| + 2] == c[|m.sam|..|m.sam| + 2] == b[|m.sam|..|m.sam| + 2];
    assert r[|m.sam| + 2..|m.sam| + 2 + |m.cn|] == c[|m.sam| + 2..|b|] == b[|m.sam| + 2..];
    r
  }

  /** Python's `<` on `(cn, sam, flags)` tuples: compare the canonical names,
      then the short names, then the flags. */
  predicate MemberLt(a: Member, b: Member) {
    || StrLt(a.cn, b.cn)
    || (a.cn == b.cn && StrLt(a.sam, b.sam))
    || (a.cn == b.cn && a.sam == b.sam && StrLt(a.flags, b.flags))
  }

  lemma MemberLtIrreflexive(a: Member)
    ensures !MemberLt(a, a)
  {
    StrLtIrreflexive(a.cn);
    StrLtIrreflexive(a.sam);
    StrLtIrreflexive(a.flags);
  }

  lemma MemberLtTransitive(a: Member, b: Member, c: Member)
    requires MemberLt(a, b) && MemberLt(b, c)
    ensures MemberLt(a, c)
  {
    if StrLt(a.cn, b.cn) && StrLt(b.cn, c.cn) {
      StrLtTransitive(a.cn, b.cn, c.cn);
    } else if a.cn == b.cn && b.cn == c.cn {
      if StrLt(a.sam, b.sam) && StrLt(b.sam, c.sam) {
        StrLtTransitive(a.sam, b.sam, c.sam);
      } else if a.sam == b.sam && b.sam == c.sam {
        StrLtTransitive(a.flags, b.flags, c.flags);
      }
    }
  }

  /** Two member tuples are equal or ordered one way. */
  lemma MemberLtTrichotomy(a: Member, b: Member)
    ensures a == b || MemberLt(a, b) || MemberLt(b, a)
  {
    StrLtTrichotomy(a.cn, b.cn);
    StrLtTrichotomy(a.sam, b.sam);
    StrLtTrichotomy(a.flags, b.flags);
  }

  lemma MemberLtAsymmetric(a: Member, b: Member)
    requires MemberLt(a, b)
    ensures !MemberLt(b, a)
  {
    if MemberLt(b, a) {
      MemberLtTransitive(a, b, a);
      MemberLtIrreflexive(a);
    }
  }

}
