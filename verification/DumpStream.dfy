/** The method listing of the dumper: parameters are each written with a separator behind them, and the put
    position is moved back over the last one. */
module DumpStream {
  import opened Common

  /** What the runtime reports about a parameter and a method. Pointers are 64-bit. */
  datatype Param = Param(byRef: bool, isIn: bool, isOut: bool, typeName: string, name: string)
  datatype MethodInfo = MethodInfo(
    pointer: nat, modifier: string, returnsByRef: bool, returnType: string, name: string, params: seq<Param>)

  // ----- the listing, without a cursor -----

  function Direction(p: Param): string {
    if p.byRef then (if p.isOut && !p.isIn then "out " else if p.isIn && !p.isOut then "in " else "ref ")
    else (if p.isIn then "[In] " else "") + (if p.isOut then "[Out] " else "")
  }

  function ParamText(p: Param): string { Direction(p) + (p.typeName + " " + p.name) }

  /** Parts with ", " between them. */
  function Joined(ps: seq<Param>): string {
    if ps == [] then ""
    else if |ps| == 1 then ParamText(ps[0])
    else Joined(ps[..|ps| - 1]) + ", " + ParamText(ps[|ps| - 1])
  }

  function Address(m: MethodInfo, base: nat, hex: nat -> string): string {
    if m.pointer != 0
    then "\t// RVA: 0x" + hex((m.pointer - base) % TWO64) + " VA: 0x" + hex(m.pointer)
    else "\t// RVA: 0x VA: 0x0"
  }

  function Opening(m: MethodInfo, base: nat, hex: nat -> string): string {
    Address(m, base, hex) + "\n\t" + m.modifier + (if m.returnsByRef then "ref " else "")
    + (m.returnType + " " + m.name + "(")
  }

  function MethodText(m: MethodInfo, base: nat, hex: nat -> string): string {
    Opening(m, base, hex) + Joined(m.params) + ") { }\n"
  }

  function Listing(ms: seq<MethodInfo>, base: nat, hex: nat -> string): string {
    if ms == [] then "\n\t// Methods\n"
    else Listing(ms[..|ms| - 1], base, hex) + MethodText(ms[|ms| - 1], base, hex)
  }

  // ----- the stream -----

  /** A string stream: writing replaces what is behind the put position and extends the text. */
  class Stream {
    var text: string
    var put: nat

    ghost predicate Valid()
      reads this
    {
      put <= |text|
    }

    predicate AtEnd()
      reads this
    {
      put == |text|
    }

    constructor ()
      ensures Valid() && AtEnd() && text == ""
    {
      text, put := "", 0;
    }

    method Write(s: string)
      requires Valid()
      modifies this
      ensures Valid() && put == old(put) + |s|
      ensures text == old(text)[..old(put)] + s + old(if put + |s| <= |text| then text[put + |s|..] else "")
      ensures old(|text| - put) <= |s| ==> AtEnd() && text == old(text)[..old(put)] + s
    {
      text := text[..put] + s + (if put + |s| <= |text| then text[put + |s|..] else "");
      put := put + |s|;
    }

    /** Write, where nothing is behind the put position. */
    method Append(s: string)
      requires Valid() && AtEnd()
      modifies this
      ensures Valid() && AtEnd() && text == old(text) + s
    {
      Write(s);
    }

    /** seekp(-n, cur). */
    method SeekBack(n: nat)
      requires Valid() && n <= put
      modifies this
      ensures Valid() && put == old(put) - n && text == old(text)
    {
      put := put - n;
    }
  }

  // ----- the code -----

  method WriteDirection(out: Stream, p: Param)
    requires out.Valid() && out.AtEnd()
    modifies out
    ensures out.Valid() && out.AtEnd() && out.text == old(out.text) + Direction(p)
  {
    if p.byRef {
      if p.isOut && !p.isIn {
        out.Append("out ");
      } else if p.isIn && !p.isOut {
        out.Append("in ");
      } else {
        out.Append("ref ");
      }
    } else {
      if p.isIn {
        out.Append("[In] ");
      }
      if p.isOut {
        out.Append("[Out] ");
      }
    }
  }

  /** One turn of the parameter loop. */
  method WriteParam(out: Stream, p: Param)
    requires out.Valid() && out.AtEnd()
    modifies out
    ensures out.Valid() && out.AtEnd() && out.text == old(out.text) + ParamText(p) + ", "
  {
    WriteDirection(out, p);
    out.Append(p.typeName + " " + p.name);
    Grouped(old(out.text), Direction(p), p.typeName + " " + p.name);
    out.Append(", ");
  }

  /** The parameter loop and the step back: what the stream holds before the put position is the joined list,
      and what it holds behind is two characters, still to be overwritten. */
  method WriteParams(out: Stream, ps: seq<Param>)
    requires out.Valid() && out.AtEnd()
    modifies out
    ensures out.Valid() && out.text[..out.put] == old(out.text) + Joined(ps)
    ensures |out.text| - out.put == if ps == [] then 0 else 2
  {
    ghost var before := out.text;
    for i := 0 to |ps|
      invariant out.Valid() && out.AtEnd() && out.text == before + Trailing(ps[..i])
    {
      TrailingNext(before, ps, i);
      WriteParam(out, ps[i]);
    }
    assert ps[..|ps|] == ps;
    if |ps| > 0 {
      Grouped(before, Joined(ps), ", ");
      out.SeekBack(2);
    }
  }

  lemma Grouped(a: string, b: string, c: string)
    ensures a + (b + c) == a + b + c
  {
  }

  /** The list as the loop writes it. */
  function Trailing(ps: seq<Param>): string { if ps == [] then "" else Joined(ps) + ", " }

  lemma TrailingNext(before: string, ps: seq<Param>, i: nat)
    requires i < |ps|
    ensures before + Trailing(ps[..i]) + ParamText(ps[i]) + ", " == before + Trailing(ps[..i + 1])
  {
    JoinedNext(ps, i);
    Grouped(before, Trailing(ps[..i]), ParamText(ps[i]));
    Grouped(before, Joined(ps[..i + 1]), ", ");
  }

  lemma JoinedNext(ps: seq<Param>, i: nat)
    requires i < |ps|
    ensures Joined(ps[..i + 1]) == Joined(ps[..i]) + (if i == 0 then "" else ", ") + ParamText(ps[i])
  {
    var now := ps[..i + 1];
    assert now[..|now| - 1] == ps[..i] && now[|now| - 1] == ps[i];
    if i == 0 {
      assert Joined(ps[..0]) == "";
    }
  }

  method WriteAddress(out: Stream, m: MethodInfo, base: nat, hex: nat -> string)
    requires out.Valid() && out.AtEnd()
    modifies out
    ensures out.Valid() && out.AtEnd() && out.text == old(out.text) + Address(m, base, hex)
  {
    if m.pointer != 0 {
      var rva, va := hex((m.pointer - base) % TWO64), hex(m.pointer);
      out.Append("\t// RVA: 0x");
      out.Append(rva);
      out.Append(" VA: 0x");
      out.Append(va);
      Grouped4(old(out.text), "\t// RVA: 0x", rva, " VA: 0x", va);
    } else {
      out.Append("\t// RVA: 0x VA: 0x0");
    }
  }

  lemma Grouped4(a: string, b: string, c: string, d: string, e: string)
    ensures a + (b + c + d + e) == a + b + c + d + e
  {
  }

  method WriteOpening(out: Stream, m: MethodInfo, base: nat, hex: nat -> string)
    requires out.Valid() && out.AtEnd()
    modifies out
    ensures out.Valid() && out.AtEnd() && out.text == old(out.text) + Opening(m, base, hex)
  {
    WriteAddress(out, m, base, hex);
    ghost var address := Address(m, base, hex);
    out.Append("\n\t");
    out.Append(m.modifier);
    ghost var byRef := if m.returnsByRef then "ref " else "";
    if m.returnsByRef {
      out.Append("ref ");
    }
    Grouped4(old(out.text), address, "\n\t", m.modifier, byRef);
    Grouped(old(out.text), address + "\n\t" + m.modifier + byRef, m.returnType + " " + m.name + "(");
    out.Append(m.returnType + " " + m.name + "(");
  }

  method WriteMethod(out: Stream, m: MethodInfo, base: nat, hex: nat -> string)
    requires out.Valid() && out.AtEnd()
    modifies out
    ensures out.Valid() && out.AtEnd() && out.text == old(out.text) + MethodText(m, base, hex)
  {
    ghost var before, opening := out.text, Opening(m, base, hex);
    WriteOpening(out, m, base, hex);
    WriteParams(out, m.params);
    out.Write(") { }\n");
    Grouped(before, opening, Joined(m.params));
    Grouped(before, opening + Joined(m.params), ") { }\n");
  }

  /** dump_method: nothing of the overwritten separators is left, and each method starts at the end. */
  method DumpMethod(ms: seq<MethodInfo>, base: nat, hex: nat -> string) returns (listing: string)
    ensures listing == Listing(ms, base, hex)
  {
    var out := new Stream();
    out.Append("\n\t// Methods\n");
    for i := 0 to |ms|
      invariant fresh(out) && out.Valid() && out.AtEnd() && out.text == Listing(ms[..i], base, hex)
    {
      assert ms[..i + 1][..i] == ms[..i];
      WriteMethod(out, ms[i], base, hex);
    }
    assert ms[..|ms|] == ms;
    listing := out.text;
  }
}
