/**
 The JSON document of `lsns`: how emitted objects are laid out as text, the printer with
 its set of printed namespaces, and the proof that the text is well-formed JSON denoting
 exactly the emitted objects.
 */
module NsJson {
  import opened Seqs
  import opened Basics
  import opened NsForest
  import opened NsTable
  import opened NsEmit
  import opened Json

  // ---------------------------------------------------------------- layout

  function Spaces(n: nat): (s: string)
    ensures |s| == n && Blank(s)
  {
    seq(n, _ => ' ')
  }

  /** One indented `"name": value` line. */
  function Field(n: nat, name: string, value: string): string {
    Spaces(n) + (['"'] + (name + (['"'] + (": " + value))))
  }

  function DisplayName(t: nat): string {
    match t
    case 1 => "user"
    case 2 => "ipc"
    case 3 => "mnt"
    case 4 => "pid"
    case 5 => "net"
    case 6 => "uts"
    case 7 => "time"
    case 8 => "cgroup"
    case 9 => "pid_for_children"
    case _ => "unknown"
  }

  /** The six lines that every object has. The display name goes in unescaped. */
  function Fields(h: Header, n: nat): seq<string> {
    [ Field(n, "ns", Integer(h.inum)),
      Field(n, "type", ['"'] + h.display + ['"']),
      Field(n, "nprocs", Integer(h.procs)),
      Field(n, "pid", Integer(h.rep)),
      Field(n, "user", Quoted(h.user)),
      Field(n, "command", Quoted(h.cmd)) ]
  }

  function ArrayText(n: nat, items: string): string {
    "[\n" + (items + ("\n" + (Spaces(n) + "]")))
  }

  function ObjectText(n: nat, members: string): string {
    Spaces(n) + ("{\n" + (members + ("\n" + (Spaces(n) + "}"))))
  }

  function Render(objs: seq<Obj>, n: nat): (r: seq<string>)
    ensures |r| == |objs|
  {
    if objs == [] then []
    else
      var o := objs[0];
      var lines := Fields(o.h, n + 3) +
                   (if o.kids == [] then []
                    else [Field(n + 3, "children", ArrayText(n + 3, Join(Render(o.kids, n + 6))))]);
      [ObjectText(n, Join(lines))] + Render(objs[1..], n)
  }

  function Document(objs: seq<Obj>): string {
    "{\n" + (Field(2, "namespaces", ArrayText(2, Join(Render(objs, 4)))) + ("\n" + ("}" + "\n")))
  }

  // ---------------------------------------------------------------- what the layout denotes

  function HeaderMembers(h: Header): seq<Member> {
    [ Member("ns", Num(h.inum)), Member("type", Str(h.display)), Member("nprocs", Num(h.procs)),
      Member("pid", Num(h.rep)), Member("user", Str(h.user)), Member("command", Str(h.cmd)) ]
  }

  function Values(objs: seq<Obj>): (r: seq<Value>)
    ensures |r| == |objs|
  {
    if objs == [] then []
    else
      var o := objs[0];
      [Rec(HeaderMembers(o.h) + (if o.kids == [] then [] else [Member("children", Arr(Values(o.kids)))]))] +
      Values(objs[1..])
  }

  /** The object says of a header what a reader looks for by name. */
  predicate SaysHeader(h: Header, ms: seq<Member>) {
    && Get(ms, "ns") == Some(Num(h.inum)) && Get(ms, "type") == Some(Str(h.display)) && Get(ms, "nprocs") == Some(Num(h.procs))
    && Get(ms, "pid") == Some(Num(h.rep)) && Get(ms, "user") == Some(Str(h.user)) && Get(ms, "command") == Some(Str(h.cmd))
  }

  /** The values say everything about the objects: their headers, and under `children`, if there are any, the objects inside. */
  ghost predicate Says(objs: seq<Obj>, vs: seq<Value>)
    decreases objs, 0
  {
    && |vs| == |objs|
    && (objs == [] ||
        (&& vs[0].Rec? && SaysHeader(objs[0].h, vs[0].members)
         && SaysKids(objs[0].kids, Get(vs[0].members, "children"))
         && Says(objs[1..], vs[1..])))
  }

  ghost predicate SaysKids(kids: seq<Obj>, v: Option<Value>)
    decreases kids, 1
  {
    if kids == [] then v == None else v.Some? && v.value.Arr? && Says(kids, v.value.items)
  }

  lemma GetHeader(h: Header, more: seq<Member>)
    ensures SaysHeader(h, HeaderMembers(h) + more) && Get(HeaderMembers(h) + more, "children") == Get(more, "children")
  {
    var ms := HeaderMembers(h) + more;
    GetPast(HeaderMembers(h), more, "children");
    GetAt(ms, "ns", 0);
    GetAt(ms, "type", 1);
    GetAt(ms, "nprocs", 2);
    GetAt(ms, "pid", 3);
    GetAt(ms, "user", 4);
    GetAt(ms, "command", 5);
  }

  lemma {:induction false} GetAt(ms: seq<Member>, name: string, k: nat)
    requires k < |ms| && ms[k].name == name && forall i :: 0 <= i < k ==> ms[i].name != name
    ensures Get(ms, name) == Some(ms[k].value)
  {
    if k > 0 {
      GetAt(ms[1..], name, k - 1);
    }
  }

  lemma {:induction false} GetPast(a: seq<Member>, b: seq<Member>, name: string)
    requires forall i :: 0 <= i < |a| ==> a[i].name != name
    ensures Get(a + b, name) == Get(b, name)
  {
    if a == [] {
      assert a + b == b;
    } else {
      assert (a + b)[1..] == a[1..] + b;
      GetPast(a[1..], b, name);
    }
  }

  lemma {:induction false} ValuesSay(objs: seq<Obj>)
    ensures Says(objs, Values(objs))
    decreases objs
  {
    if objs != [] {
      var o := objs[0];
      var more := if o.kids == [] then [] else [Member("children", Arr(Values(o.kids)))];
      GetHeader(o.h, more);
      ValuesSay(o.kids);
      ValuesSay(objs[1..]);
      assert Values(objs)[1..] == Values(objs[1..]);
    }
  }

  /** The nine types have nine names, and everything else is unknown. */
  lemma DisplayNames(a: nat, b: nat)
    ensures DisplayName(a) == "unknown" <==> !(1 <= a <= 9)
    ensures 1 <= a <= 9 && DisplayName(a) == DisplayName(b) ==> a == b
  {
    assert DisplayName(a)[0] == DisplayName(a)[0];
  }

  predicate Plain(s: string) {
    forall i :: 0 <= i < |s| ==> s[i] >= ' ' && s[i] != '"' && s[i] != '\\'
  }

  lemma {:induction false} EscapePlain(s: string)
    requires Plain(s)
    ensures Escape(s) == s
  {
    if s != [] {
      EscapePlain(s[1..]);
      assert EscapeChar(s[0]) == [s[0]];
      assert s == [s[0]] + s[1..];
    }
  }

  lemma DisplayPlain(t: nat)
    ensures Plain(DisplayName(t))
  {
  }

  lemma ReadsField(n: nat, name: string, value: string, v: Value)
    requires Plain(name) && ReadsValue(value, v)
    ensures ReadsMember(Field(n, name, value), Member(name, v))
  {
    forall rest | Ends(rest) ensures ParseMember(Field(n, name, value) + rest) == Ok(Member(name, v), rest) {
      ReadsFieldThen(n, name, value, v, rest);
    }
  }

  lemma FieldThen(n: nat, name: string, value: string, rest: string)
    ensures Field(n, name, value) + rest == Spaces(n) + (['"'] + (name + (['"'] + ([':'] + ([' '] + (value + rest))))))
  {
    var a := ": " + value;
    Assoc(Spaces(n), ['"'] + (name + (['"'] + a)), rest);
    Assoc(['"'], name + (['"'] + a), rest);
    Assoc(name, ['"'] + a, rest);
    Assoc(['"'], a, rest);
    Assoc(": ", value, rest);
    assert ": " == [':'] + [' '];
    Assoc([':'], [' '], value + rest);
  }

  lemma ReadsFieldThen(n: nat, name: string, value: string, v: Value, rest: string)
    requires Plain(name) && ReadsValue(value, v) && Ends(rest)
    ensures ParseMember(Field(n, name, value) + rest) == Ok(Member(name, v), rest)
  {
    FieldThen(n, name, value, rest);
    var afterColon := [' '] + (value + rest);
    var afterName := [':'] + afterColon;
    var inName := name + (['"'] + afterName);
    BlankMember(Spaces(n), ['"'] + inName);
    EscapePlain(name);
    EscapeRoundTrip(name, afterName);
    BlankValue([' '], value + rest);
    MemberParts(name, v, inName, afterColon, rest);
  }

  lemma MemberParts(name: string, v: Value, inName: string, afterColon: string, rest: string)
    requires ParseStr(inName) == Ok(name, [':'] + afterColon)
    requires ParseValue(afterColon) == Ok(v, rest)
    ensures ParseMember(['"'] + inName) == Ok(Member(name, v), rest)
  {
    assert (['"'] + inName)[1..] == inName;
    assert ([':'] + afterColon)[1..] == afterColon;
  }

  // ---------------------------------------------------------------- objects and arrays

  lemma ObjectValue(s: string)
    requires ParseMembers(s).Ok?
    ensures ParseValue(['{'] + s) == Ok(Rec(ParseMembers(s).value), ParseMembers(s).rest)
  {
    assert (['{'] + s)[1..] == s;
    assert ParseMember(s).Ok?;
  }

  lemma ArrayValue(s: string)
    requires ParseItems(s).Ok?
    ensures ParseValue(['['] + s) == Ok(Arr(ParseItems(s).value), ParseItems(s).rest)
  {
    assert (['['] + s)[1..] == s;
    NotClosing(s);
  }

  lemma NotClosing(s: string)
    requires ParseItems(s).Ok?
    ensures SkipWs(s) != [] && SkipWs(s)[0] != ']'
  {
    assert ParseValue(s).Ok?;
  }

  lemma ObjectThen(n: nat, members: string, rest: string)
    ensures ObjectText(n, members) + rest ==
            Spaces(n) + (['{'] + ("\n" + (members + ("\n" + (Spaces(n) + (['}'] + rest))))))
  {
    var close := "\n" + (Spaces(n) + "}");
    Assoc(Spaces(n), "{\n" + (members + close), rest);
    Assoc("{\n", members + close, rest);
    Assoc(members, close, rest);
    Assoc("\n", Spaces(n) + "}", rest);
    Assoc(Spaces(n), "}", rest);
    assert "{\n" == ['{'] + "\n";
    Assoc(['{'], "\n", members + ("\n" + (Spaces(n) + (['}'] + rest))));
  }

  lemma ReadsObject(n: nat, parts: seq<string>, ms: seq<Member>)
    requires parts != [] && ReadsMembers(parts, ms)
    ensures ReadsValue(ObjectText(n, Join(parts)), Rec(ms))
  {
    forall rest | Ends(rest) ensures ParseValue(ObjectText(n, Join(parts)) + rest) == Ok(Rec(ms), rest) {
      ReadsObjectThen(n, parts, ms, rest);
    }
  }

  lemma ReadsObjectThen(n: nat, parts: seq<string>, ms: seq<Member>, rest: string)
    requires parts != [] && ReadsMembers(parts, ms)
    ensures ParseValue(ObjectText(n, Join(parts)) + rest) == Ok(Rec(ms), rest)
  {
    ObjectThen(n, Join(parts), rest);
    var body := Join(parts) + ("\n" + (Spaces(n) + (['}'] + rest)));
    JoinedMembers(parts, ms, Spaces(n), rest);
    BlankMembers("\n", body);
    ObjectValue("\n" + body);
    BlankValue(Spaces(n), ['{'] + ("\n" + body));
  }

  lemma ArrayThen(n: nat, items: string, rest: string)
    ensures ArrayText(n, items) + rest == ['['] + ("\n" + (items + ("\n" + (Spaces(n) + ([']'] + rest)))))
  {
    var close := "\n" + (Spaces(n) + "]");
    Assoc("[\n", items + close, rest);
    Assoc(items, close, rest);
    Assoc("\n", Spaces(n) + "]", rest);
    Assoc(Spaces(n), "]", rest);
    assert "[\n" == ['['] + "\n";
    Assoc(['['], "\n", items + ("\n" + (Spaces(n) + ([']'] + rest))));
  }

  lemma ReadsArray(n: nat, parts: seq<string>, vs: seq<Value>)
    requires ReadsValues(parts, vs)
    ensures ReadsValue(ArrayText(n, Join(parts)), Arr(vs))
  {
    forall rest | Ends(rest) ensures ParseValue(ArrayText(n, Join(parts)) + rest) == Ok(Arr(vs), rest) {
      ReadsArrayThen(n, parts, vs, rest);
    }
  }

  lemma ReadsArrayThen(n: nat, parts: seq<string>, vs: seq<Value>, rest: string)
    requires ReadsValues(parts, vs)
    ensures ParseValue(ArrayText(n, Join(parts)) + rest) == Ok(Arr(vs), rest)
  {
    ArrayThen(n, Join(parts), rest);
    var close := "\n" + (Spaces(n) + ([']'] + rest));
    var body := Join(parts) + close;
    if parts == [] {
      assert body == close;
      ClosingLine(Spaces(n), ']', rest);
      SkipBlank("\n", close);
      EmptyArray("\n" + close, rest);
    } else {
      JoinedItems(parts, vs, Spaces(n), rest);
      BlankItems("\n", body);
      ArrayValue("\n" + body);
    }
  }

  lemma EmptyArray(s: string, rest: string)
    requires SkipWs(s) == [']'] + rest
    ensures ParseValue(['['] + s) == Ok(Arr([]), rest)
  {
    assert (['['] + s)[1..] == s;
    assert ([']'] + rest)[1..] == rest;
  }

  // ---------------------------------------------------------------- the whole document

  ghost predicate Displayed(objs: seq<Obj>) {
    objs == [] || (Plain(objs[0].h.display) && Displayed(objs[0].kids) && Displayed(objs[1..]))
  }

  lemma ReadsIntegerField(n: nat, name: string, i: int)
    requires Plain(name)
    ensures ReadsMember(Field(n, name, Integer(i)), Member(name, Num(i)))
  {
    ReadsInteger(i);
    ReadsField(n, name, Integer(i), Num(i));
  }

  lemma ReadsStringField(n: nat, name: string, s: string)
    requires Plain(name)
    ensures ReadsMember(Field(n, name, Quoted(s)), Member(name, Str(s)))
  {
    ReadsQuoted(s);
    ReadsField(n, name, Quoted(s), Str(s));
  }

  lemma ReadsHeader(h: Header, n: nat)
    requires Plain(h.display)
    ensures ReadsMembers(Fields(h, n), HeaderMembers(h))
  {
    EscapePlain(h.display);
    ReadsIntegerField(n, "ns", h.inum);
    ReadsStringField(n, "type", h.display);
    ReadsIntegerField(n, "nprocs", h.procs);
    ReadsIntegerField(n, "pid", h.rep);
    ReadsStringField(n, "user", h.user);
    ReadsStringField(n, "command", h.cmd);
    SixMembers(Field(n, "ns", Integer(h.inum)), Member("ns", Num(h.inum)),
               Field(n, "type", Quoted(h.display)), Member("type", Str(h.display)),
               Field(n, "nprocs", Integer(h.procs)), Member("nprocs", Num(h.procs)),
               Field(n, "pid", Integer(h.rep)), Member("pid", Num(h.rep)),
               Field(n, "user", Quoted(h.user)), Member("user", Str(h.user)),
               Field(n, "command", Quoted(h.cmd)), Member("command", Str(h.cmd)));
  }

  lemma SixMembers(a: string, ma: Member, b: string, mb: Member, c: string, mc: Member,
                   d: string, md: Member, e: string, me: Member, f: string, mf: Member)
    requires ReadsMember(a, ma) && ReadsMember(b, mb) && ReadsMember(c, mc)
    requires ReadsMember(d, md) && ReadsMember(e, me) && ReadsMember(f, mf)
    ensures ReadsMembers([a, b, c, d, e, f], [ma, mb, mc, md, me, mf])
  {
    ReadsMembersConcat([], [], a, ma);
    ReadsMembersConcat([a], [ma], b, mb);
    ReadsMembersConcat([a, b], [ma, mb], c, mc);
    ReadsMembersConcat([a, b, c], [ma, mb, mc], d, md);
    ReadsMembersConcat([a, b, c, d], [ma, mb, mc, md], e, me);
    ReadsMembersConcat([a, b, c, d, e], [ma, mb, mc, md, me], f, mf);
    assert [a, b, c, d, e] + [f] == [a, b, c, d, e, f];
    assert [ma, mb, mc, md, me] + [mf] == [ma, mb, mc, md, me, mf];
  }

  lemma ReadsMembersConcat(a: seq<string>, ms: seq<Member>, b: string, m: Member)
    requires ReadsMembers(a, ms) && ReadsMember(b, m)
    ensures ReadsMembers(a + [b], ms + [m])
  {
    forall i | 0 <= i < |a + [b]| ensures ReadsMember((a + [b])[i], (ms + [m])[i]) {
      if i < |a| {
        assert ReadsMember(a[i], ms[i]);
      }
    }
  }

  lemma ReadsValuesCons(a: string, v: Value, b: seq<string>, vs: seq<Value>)
    requires ReadsValue(a, v) && ReadsValues(b, vs)
    ensures ReadsValues([a] + b, [v] + vs)
  {
    forall i | 0 <= i < |[a] + b| ensures ReadsValue(([a] + b)[i], ([v] + vs)[i]) {
      if i == 0 {
        assert ([a] + b)[i] == a && ([v] + vs)[i] == v;
      } else {
        assert ([a] + b)[i] == b[i - 1] && ([v] + vs)[i] == vs[i - 1];
      }
    }
  }

  lemma {:induction false} RenderReads(objs: seq<Obj>, n: nat)
    requires Displayed(objs)
    ensures ReadsValues(Render(objs, n), Values(objs))
    decreases objs
  {
    if objs != [] {
      var o := objs[0];
      ReadsHeader(o.h, n + 3);
      RenderReads(objs[1..], n);
      if o.kids == [] {
        assert Fields(o.h, n + 3) + [] == Fields(o.h, n + 3);
        assert HeaderMembers(o.h) + [] == HeaderMembers(o.h);
        ReadsObject(n, Fields(o.h, n + 3), HeaderMembers(o.h));
        ReadsValuesCons(ObjectText(n, Join(Fields(o.h, n + 3))), Rec(HeaderMembers(o.h)),
                        Render(objs[1..], n), Values(objs[1..]));
      } else {
        RenderReads(o.kids, n + 6);
        ReadsParent(objs, n);
      }
    }
  }

  lemma ReadsParent(objs: seq<Obj>, n: nat)
    requires objs != [] && objs[0].kids != []
    requires ReadsMembers(Fields(objs[0].h, n + 3), HeaderMembers(objs[0].h))
    requires ReadsValues(Render(objs[0].kids, n + 6), Values(objs[0].kids))
    requires ReadsValues(Render(objs[1..], n), Values(objs[1..]))
    ensures ReadsValues(Render(objs, n), Values(objs))
  {
    var o := objs[0];
    var line := Field(n + 3, "children", ArrayText(n + 3, Join(Render(o.kids, n + 6))));
    var children := Member("children", Arr(Values(o.kids)));
    ReadsWithChildren(n, Fields(o.h, n + 3), HeaderMembers(o.h), Render(o.kids, n + 6), Values(o.kids));
    ReadsValuesCons(ObjectText(n, Join(Fields(o.h, n + 3) + [line])), Rec(HeaderMembers(o.h) + [children]),
                    Render(objs[1..], n), Values(objs[1..]));
  }

  lemma ReadsWithChildren(n: nat, parts: seq<string>, ms: seq<Member>, items: seq<string>, vs: seq<Value>)
    requires parts != [] && ReadsMembers(parts, ms) && ReadsValues(items, vs)
    ensures ReadsValue(ObjectText(n, Join(parts + [Field(n + 3, "children", ArrayText(n + 3, Join(items)))])),
                       Rec(ms + [Member("children", Arr(vs))]))
  {
    var line := Field(n + 3, "children", ArrayText(n + 3, Join(items)));
    ReadsArray(n + 3, items, vs);
    ReadsField(n + 3, "children", ArrayText(n + 3, Join(items)), Arr(vs));
    ReadsMembersConcat(parts, ms, line, Member("children", Arr(vs)));
    ReadsObject(n, parts + [line], ms + [Member("children", Arr(vs))]);
  }

  lemma OneMemberText(line: string, m: Member)
    requires ReadsMember(line, m)
    ensures ParseText("{\n" + (line + ("\n" + ("}" + "\n")))) == Ok(Rec([m]), [])
  {
    var close := "\n" + ("}" + "\n");
    assert "" + (['}'] + "\n") == "}" + "\n";
    ClosingLine("", '}', "\n");
    LastMember(line, m, close, "\n");
    BlankMembers("\n", line + close);
    ObjectValue("\n" + (line + close));
    assert "{\n" == ['{'] + "\n";
    Assoc(['{'], "\n", line + close);
    SkipBlank("\n", "");
    assert "\n" + "" == "\n";
  }

  /** The printed document parses, and denotes exactly the emitted objects. */
  lemma DocumentWellFormed(objs: seq<Obj>)
    requires Displayed(objs)
    ensures ParseText(Document(objs)) == Ok(Rec([Member("namespaces", Arr(Values(objs)))]), [])
  {
    RenderReads(objs, 4);
    ReadsArray(2, Render(objs, 4), Values(objs));
    var text := ArrayText(2, Join(Render(objs, 4)));
    ReadsField(2, "namespaces", text, Arr(Values(objs)));
    OneMemberText(Field(2, "namespaces", text), Member("namespaces", Arr(Values(objs))));
  }

  // ---------------------------------------------------------------- the printer

  lemma {:induction false} RenderConcat(a: seq<Obj>, b: seq<Obj>, n: nat)
    ensures Render(a + b, n) == Render(a, n) + Render(b, n)
  {
    if a == [] {
      assert a + b == b;
    } else {
      assert (a + b)[1..] == a[1..] + b;
      RenderConcat(a[1..], b, n);
      Assoc([Render(a, n)[0]], Render(a[1..], n), Render(b, n));
    }
  }

  /** Appending one more object to the text of a list, with a comma unless it is the first. */
  lemma JoinMore(objs: seq<Obj>, o: Obj, n: nat)
    ensures Join(Render([o], n)) != ""
    ensures Join(Render(objs + [o], n)) ==
            (if objs == [] then "" else Join(Render(objs, n)) + ",\n") + Join(Render([o], n))
  {
    RenderConcat(objs, [o], n);
    var one := Render([o], n);
    assert one == [one[0]] && Join(one) == one[0];
    if objs == [] {
      assert objs + [o] == [o];
    } else {
      JoinSnoc(Render(objs, n), one[0]);
      Assoc(Join(Render(objs, n)), ",\n", one[0]);
    }
  }

  lemma EmitOne(t: Table, h: Header, printed: set<string>)
    requires h in t.headers
    ensures InTable(t, [h])
    ensures Key(h) in printed ==> EmitList(t, [h], printed) == Emitted([], printed)
    ensures Key(h) !in printed ==>
              && InTable(t, ChildHeaders(t, t.forest.Kids(h.rep)))
              && var kids := EmitList(t, ChildHeaders(t, t.forest.Kids(h.rep)), printed + {Key(h)});
                 EmitList(t, [h], printed) == Emitted([Obj(h, kids.objs)], kids.printed)
  {
    ChildrenInTable(t, h.rep);
    assert [h][1..] == [];
  }

  lemma RenderOne(h: Header, kids: seq<Obj>, n: nat)
    ensures kids == [] ==> Join(Render([Obj(h, kids)], n)) == ObjectText(n, Join(Fields(h, n + 3)))
    ensures kids != [] ==>
              Join(Render([Obj(h, kids)], n)) ==
              ObjectText(n, Join(Fields(h, n + 3)) +
                            (",\n" + Field(n + 3, "children", ArrayText(n + 3, Join(Render(kids, n + 6))))))
  {
    assert [Obj(h, kids)][1..] == [];
    if kids == [] {
      assert Fields(h, n + 3) + [] == Fields(h, n + 3);
    } else {
      JoinSnoc(Fields(h, n + 3), Field(n + 3, "children", ArrayText(n + 3, Join(Render(kids, n + 6)))));
    }
  }

  class JsonPrinter {
    const t: Table
    var printed: set<string>

    constructor (t: Table)
      ensures this.t == t && printed == {}
    {
      this.t := t;
      printed := {};
    }

    /** Is some child header not printed yet? The two nested search loops. */
    method HaveChild(kids: seq<Pid>) returns (found: bool)
      ensures found <==> !AllPrinted(ChildHeaders(t, kids), printed)
    {
      found := false;
      for i := 0 to |kids|
        invariant !found && (AllPrinted(ChildHeaders(t, kids), printed) <==> AllPrinted(ChildHeaders(t, kids[i..]), printed))
      {
        var hs := HeadersOf(t.headers, kids[i]);
        AllPrintedConcat(hs, ChildHeaders(t, kids[i + 1..]), printed);
        assert kids[i..][1..] == kids[i + 1..];
        found := SomeUnprinted(hs);
        if found {
          return;
        }
      }
      assert kids[|kids|..] == [];
    }

    method SomeUnprinted(hs: seq<Header>) returns (found: bool)
      ensures found <==> !AllPrinted(hs, printed)
    {
      for j := 0 to |hs|
        invariant forall k :: 0 <= k < j ==> Key(hs[k]) in printed
      {
        if Key(hs[j]) !in printed {
          return true;
        }
      }
      return false;
    }

    /**
     `build_header_json`: the text of the header's object with everything below it, or
     nothing if the namespace was printed before. It ends because it marks the namespace
     before it descends.
     */
    method BuildHeaderJson(h: Header, indent: nat) returns (s: string)
      requires h in t.headers
      modifies this`printed
      ensures InTable(t, [h])
      ensures Emitted(EmitList(t, [h], old(printed)).objs, printed) == EmitList(t, [h], old(printed))
      ensures s == Join(Render(EmitList(t, [h], old(printed)).objs, indent))
      decreases AllKeys(t) - printed, 1
    {
      EmitOne(t, h, printed);
      if Key(h) in printed {
        return "";
      }
      assert Key(h) in AllKeys(t);
      printed := printed + {Key(h)};
      assert AllKeys(t) - printed < AllKeys(t) - old(printed);
      var kids := t.forest.Kids(h.rep);
      var members := Join(Fields(h, indent + 3));
      var haveChild := HaveChild(kids);
      EmptyIffPrinted(t, ChildHeaders(t, kids), printed);
      RenderOne(h, EmitList(t, ChildHeaders(t, kids), printed).objs, indent);
      if haveChild {
        var children := EmitChildren(kids, indent + 6);
        members := members + (",\n" + Field(indent + 3, "children", ArrayText(indent + 3, children)));
      }
      s := ObjectText(indent, members);
    }

    /** The two nested loops that print the child headers, separated by commas. */
    method EmitChildren(kids: seq<Pid>, indent: nat) returns (text: string)
      requires InTable(t, ChildHeaders(t, kids))
      modifies this`printed
      ensures Emitted(EmitList(t, ChildHeaders(t, kids), old(printed)).objs, printed) ==
              EmitList(t, ChildHeaders(t, kids), old(printed))
      ensures text == Join(Render(EmitList(t, ChildHeaders(t, kids), old(printed)).objs, indent))
      decreases AllKeys(t) - printed, 4
    {
      text := "";
      var firstChild := true;
      ghost var done: seq<Obj> := [];
      ghost var all := EmitList(t, ChildHeaders(t, kids), printed);
      for i := 0 to |kids|
        invariant old(printed) <= printed
        invariant text == Join(Render(done, indent)) && firstChild == (done == [])
        invariant InTable(t, ChildHeaders(t, kids[i..]))
        invariant Continues(all, done, EmitList(t, ChildHeaders(t, kids[i..]), printed))
      {
        var hs := HeadersOf(t.headers, kids[i]);
        ghost var rest := ChildHeaders(t, kids[i + 1..]);
        assert kids[i..][1..] == kids[i + 1..];
        TableParts(t, hs, rest);
        EmitConcat(t, hs, rest, printed);
        ghost var before := done;
        ghost var here := EmitList(t, hs, printed);
        text, firstChild, done := EmitHeaders(hs, indent, text, firstChild, done);
        Assoc(before, here.objs, EmitList(t, rest, printed).objs);
      }
      assert kids[|kids|..] == [] && done + [] == done;
    }

    /** The inner loop, over the headers of one child. `done` are the objects in `acc` already. */
    method EmitHeaders(hs: seq<Header>, indent: nat, acc: string, first: bool, ghost done: seq<Obj>)
      returns (text: string, firstChild: bool, ghost done': seq<Obj>)
      requires InTable(t, hs) && acc == Join(Render(done, indent)) && first == (done == [])
      modifies this`printed
      ensures old(printed) <= printed
      ensures done' == done + EmitList(t, hs, old(printed)).objs
      ensures printed == EmitList(t, hs, old(printed)).printed
      ensures text == Join(Render(done', indent)) && firstChild == (done' == [])
      decreases AllKeys(t) - printed, 3
    {
      text, firstChild, done' := acc, first, done;
      ghost var all := EmitList(t, hs, printed);
      ghost var goal := Emitted(done + all.objs, all.printed);
      assert hs[0..] == hs;
      for j := 0 to |hs|
        invariant old(printed) <= printed
        invariant text == Join(Render(done', indent)) && firstChild == (done' == [])
        invariant InTable(t, hs[j..]) && Continues(goal, done', EmitList(t, hs[j..], printed))
      {
        ListStep(t, hs, j, printed, done', goal);
        text, firstChild, done' := EmitHeader(hs[j], indent, text, firstChild, done');
      }
      CollectEnd(t, hs, printed, done', goal);
    }

    /** The body of that loop: a printed header is skipped, any other adds one object and maybe a comma. */
    method EmitHeader(h: Header, indent: nat, acc: string, first: bool, ghost done: seq<Obj>)
      returns (text: string, firstChild: bool, ghost done': seq<Obj>)
      requires h in t.headers && acc == Join(Render(done, indent)) && first == (done == [])
      modifies this`printed
      ensures old(printed) <= printed && InTable(t, [h])
      ensures done' == done + EmitList(t, [h], old(printed)).objs
      ensures printed == EmitList(t, [h], old(printed)).printed
      ensures text == Join(Render(done', indent)) && firstChild == (done' == [])
      decreases AllKeys(t) - printed, 2
    {
      text, firstChild, done' := acc, first, done;
      EmitOne(t, h, printed);
      if Key(h) in printed {
        assert done + [] == done;
        return;
      }
      ghost var o := EmitList(t, [h], printed).objs[0];
      var childJson := BuildHeaderJson(h, indent);
      JoinMore(done, o, indent);
      if !firstChild {
        text := text + ",\n";
      }
      firstChild := false;
      text := text + childJson;
      done' := done + [o];
    }

    /** The loop over all headers: the non-empty results, in order. */
    method EmitAll() returns (objs: seq<string>)
      requires printed == {}
      modifies this`printed
      ensures InTable(t, t.headers)
      ensures objs == Render(EmitList(t, t.headers, {}).objs, 4)
    {
      objs := [];
      ghost var done: seq<Obj> := [];
      var hs := t.headers;
      ghost var all := EmitList(t, hs, {});
      CollectStart(t, hs);
      for j := 0 to |hs|
        invariant InTable(t, hs[j..])
        invariant objs == Render(done, 4)
        invariant Continues(all, done, EmitList(t, hs[j..], printed))
      {
        CollectStep(t, hs, j, printed, done, all);
        ghost var one := EmitList(t, [hs[j]], printed).objs;
        var s := BuildHeaderJson(hs[j], 4);
        if s != "" {
          objs := objs + [s];
        }
        done := done + one;
      }
      CollectEnd(t, hs, printed, done, all);
    }

    /** The loop after it, over representatives without a header: there are none, so it adds no object. */
    method RemainingReps(reps: seq<Pid>) returns (objs: seq<string>)
      requires forall i :: 0 <= i < |reps| ==> reps[i] in RepInum(t.headers)
      ensures objs == []
    {
      objs := [];
      for i := 0 to |reps|
        invariant objs == []
      {
        var tgid := reps[i];
        var phit := HeadersOf(t.headers, tgid);
        RepHasHeader(t.headers, tgid);
        if phit == [] {
          objs := objs + [Minimal(tgid)];
        }
      }
    }

    /** The whole of JSON mode; `reps` is the order in which the hash table gives the representatives. */
    method PrintDocument(reps: seq<Pid>) returns (doc: string)
      requires printed == {} && forall i :: 0 <= i < |reps| ==> reps[i] in RepInum(t.headers)
      modifies this`printed
      ensures InTable(t, t.headers)
      ensures doc == Document(EmitList(t, t.headers, {}).objs)
    {
      var objs := EmitAll();
      var remaining := RemainingReps(reps);
      assert objs + remaining == objs;
      var items := JoinObjects(objs + remaining);
      doc := "{\n" + (Field(2, "namespaces", ArrayText(2, items)) + ("\n" + ("}" + "\n")));
    }
  }

  /** An object with nothing but a representative in it. */
  function Minimal(tgid: Pid): string {
    ObjectText(4, Join([Field(7, "pid", Integer(tgid)), Field(7, "user", Quoted("-"))]))
  }

  /** The last loop: a comma and a line break before every object but the first. */
  method JoinObjects(objs: seq<string>) returns (items: string)
    ensures items == Join(objs)
  {
    items := "";
    for i := 0 to |objs|
      invariant items == Join(objs[..i])
    {
      assert objs[..i + 1] == objs[..i] + [objs[i]];
      if i > 0 {
        JoinSnoc(objs[..i], objs[i]);
        Assoc(items, ",\n", objs[i]);
        items := items + ",\n";
      }
      items := items + objs[i];
    }
    assert objs[..|objs|] == objs;
  }

  lemma CollectStart(t: Table, hs: seq<Header>)
    requires InTable(t, hs)
    ensures InTable(t, hs[0..]) && Continues(EmitList(t, hs, {}), [], EmitList(t, hs[0..], {}))
  {
    assert hs[0..] == hs;
    assert [] + EmitList(t, hs, {}).objs == EmitList(t, hs, {}).objs;
  }

  lemma CollectEnd(t: Table, hs: seq<Header>, printed: set<string>, done: seq<Obj>, all: Emitted)
    requires InTable(t, hs[|hs|..]) && Continues(all, done, EmitList(t, hs[|hs|..], printed))
    ensures all == Emitted(done, printed)
  {
    assert hs[|hs|..] == [];
    assert done + [] == done;
  }

  /** One round of either loop: the header's object, if any, moves from what is to come to what is done. */
  lemma ListStep(t: Table, hs: seq<Header>, j: nat, printed: set<string>, done: seq<Obj>, all: Emitted)
    requires InTable(t, hs) && j < |hs| && Continues(all, done, EmitList(t, hs[j..], printed))
    ensures InTable(t, hs[j + 1..]) && InTable(t, [hs[j]])
    ensures var one := EmitList(t, [hs[j]], printed);
            Continues(all, done + one.objs, EmitList(t, hs[j + 1..], one.printed))
  {
    EmitStep(t, hs, j, printed);
    EmitOne(t, hs[j], printed);
    var one := EmitList(t, [hs[j]], printed);
    if one.objs == [] {
      assert done + one.objs == done;
    } else {
      Assoc(done, one.objs, EmitList(t, hs[j + 1..], one.printed).objs);
    }
  }

  /** One round of the outer loop, with the text it adds. */
  lemma CollectStep(t: Table, hs: seq<Header>, j: nat, printed: set<string>, done: seq<Obj>, all: Emitted)
    requires InTable(t, hs) && j < |hs| && Continues(all, done, EmitList(t, hs[j..], printed))
    ensures InTable(t, hs[j + 1..]) && InTable(t, [hs[j]])
    ensures var one := EmitList(t, [hs[j]], printed);
            && Continues(all, done + one.objs, EmitList(t, hs[j + 1..], one.printed))
            && Render(done + one.objs, 4) == Render(done, 4) + (if one.objs == [] then [] else [Join(Render(one.objs, 4))])
            && (Join(Render(one.objs, 4)) == "" <==> one.objs == [])
  {
    ListStep(t, hs, j, printed, done, all);
    EmitOne(t, hs[j], printed);
    var one := EmitList(t, [hs[j]], printed);
    if one.objs == [] {
      assert done + one.objs == done;
    } else {
      JoinMore([], one.objs[0], 4);
      assert Render(one.objs, 4) == [Render(one.objs, 4)[0]];
      RenderConcat(done, one.objs, 4);
    }
  }

  /** One round of the inner loop: a printed header is skipped, any other becomes one object. */
  lemma EmitStep(t: Table, hs: seq<Header>, j: nat, printed: set<string>)
    requires InTable(t, hs) && j < |hs|
    ensures InTable(t, hs[j..]) && InTable(t, hs[j + 1..]) && InTable(t, [hs[j]])
    ensures Key(hs[j]) in printed ==> EmitList(t, hs[j..], printed) == EmitList(t, hs[j + 1..], printed)
    ensures Key(hs[j]) !in printed ==>
              var one := EmitList(t, [hs[j]], printed);
              var rest := EmitList(t, hs[j + 1..], one.printed);
              && |one.objs| == 1 && one.objs == [one.objs[0]]
              && EmitList(t, hs[j..], printed) == Emitted([one.objs[0]] + rest.objs, rest.printed)
  {
    assert hs[j..] == [hs[j]] + hs[j + 1..];
    assert hs[j..][1..] == hs[j + 1..];
    EmitConcat(t, [hs[j]], hs[j + 1..], printed);
    EmitOne(t, hs[j], printed);
  }

  lemma RepHasHeader(headers: seq<Header>, x: Pid)
    requires x in RepInum(headers)
    ensures HeadersOf(headers, x) != []
  {
    var h :| h in headers && h.rep == x;
    assert h in HeadersOf(headers, x);
  }

  lemma {:induction false} DisplayedFromTable(t: Table, objs: seq<Obj>)
    requires InTable(t, Flat(objs)) && forall h :: h in t.headers ==> h.display == DisplayName(h.nsType)
    ensures Displayed(objs)
    decreases objs
  {
    if objs != [] {
      TableParts(t, [objs[0].h] + Flat(objs[0].kids), Flat(objs[1..]));
      TableParts(t, [objs[0].h], Flat(objs[0].kids));
      assert [objs[0].h][0] in t.headers;
      DisplayPlain(objs[0].h.nsType);
      DisplayedFromTable(t, objs[0].kids);
      DisplayedFromTable(t, objs[1..]);
    }
  }

  /**
   JSON mode as a whole, for any parent relation: the document printed is well-formed JSON,
   its value lists every namespace of the table exactly once, and every nested object sits
   under an object of its representative's parent.
   */
  lemma DocumentCorrect(t: Table)
    requires forall h :: h in t.headers ==> h.display == DisplayName(h.nsType)
    ensures InTable(t, t.headers)
    ensures var objs := EmitList(t, t.headers, {}).objs;
            && ParseText(Document(objs)) == Ok(Rec([Member("namespaces", Arr(Values(objs)))]), [])
            && DistinctNs(Flat(objs)) && (forall h :: h in t.headers ==> HasNs(Flat(objs), h))
            && (DistinctNs(t.headers) ==> multiset(Flat(objs)) == multiset(t.headers))
            && Nested(t, objs)
  {
    var objs := EmitList(t, t.headers, {}).objs;
    EmitFromTable(t, t.headers, {});
    DisplayedFromTable(t, objs);
    DocumentWellFormed(objs);
    ExactlyOnce(t);
    EmitNested(t, t.headers, {}, 0);
  }

  ghost predicate Continues(all: Emitted, done: seq<Obj>, rest: Emitted) {
    all == Emitted(done + rest.objs, rest.printed)
  }

  lemma AllPrintedConcat(a: seq<Header>, b: seq<Header>, printed: set<string>)
    ensures AllPrinted(a + b, printed) <==> AllPrinted(a, printed) && AllPrinted(b, printed)
  {
    if AllPrinted(a + b, printed) {
      forall i | 0 <= i < |a| ensures Key(a[i]) in printed {
        assert (a + b)[i] == a[i];
      }
      forall i | 0 <= i < |b| ensures Key(b[i]) in printed {
        assert (a + b)[|a| + i] == b[i];
      }
    }
  }

  lemma TableParts(t: Table, a: seq<Header>, b: seq<Header>)
    requires InTable(t, a + b)
    ensures InTable(t, a) && InTable(t, b)
  {
    forall i | 0 <= i < |a| ensures a[i] in t.headers {
      assert (a + b)[i] == a[i];
    }
    forall i | 0 <= i < |b| ensures b[i] in t.headers {
      assert (a + b)[|a| + i] == b[i];
    }
  }
}
