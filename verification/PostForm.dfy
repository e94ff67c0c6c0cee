/**
 The POST handlers of `access_point_httpd/http_control.c`: chunks are appended to one buffer,
 which is then cut up in place by `strtok` and by NUL writes at each '='.
 */
module PostForm {
  import opened Bytes
  import opened CStrings
  import opened Settings

  const MAX_POST_DATA_LEN := 1024
  const AMP: byte := 38
  const EQ: byte := 61
  const DIGIT_ZERO: byte := 48

  // ----- the meaning of a body -----

  /** The first index of c, or |s|. */
  function Find(s: seq<byte>, c: byte): (k: nat)
    ensures k <= |s|
    ensures k < |s| ==> s[k] == c
    ensures forall j :: 0 <= j < k ==> s[j] != c
  {
    if s == [] || s[0] == c then 0 else 1 + Find(s[1..], c)
  }

  lemma {:induction false} FindIsUnique(s: seq<byte>, c: byte, k: nat)
    requires k <= |s|
    requires k < |s| ==> s[k] == c
    requires forall j :: 0 <= j < k ==> s[j] != c
    ensures Find(s, c) == k
  {
  }

  /** The body split at every '&', without the empty pieces. */
  function Tokens(body: seq<byte>): seq<seq<byte>>
    decreases |body|
  {
    if body == [] then []
    else if body[0] == AMP then Tokens(body[1..])
    else
      var e := Find(body, AMP);
      [body[..e]] + if e < |body| then Tokens(body[e + 1..]) else []
  }

  /** The code hands a value that starts with the digit '0' on as empty. */
  function PassedValue(value: seq<byte>): seq<byte>
  {
    if value != [] && value[0] == DIGIT_ZERO then [] else value
  }

  /** The key and value of a token; a token without '=' is dropped. */
  function PairOf(token: seq<byte>): seq<Pair>
  {
    var k := Find(token, EQ);
    if k == |token| then [] else [(token[..k], PassedValue(token[k + 1..]))]
  }

  function PairsOf(tokens: seq<seq<byte>>): seq<Pair>
  {
    if tokens == [] then [] else PairOf(tokens[0]) + PairsOf(tokens[1..])
  }

  function Pairs(body: seq<byte>): seq<Pair> { PairsOf(Tokens(body)) }

  // ----- strtok -----

  lemma {:induction false} TokensSkipAmp(body: seq<byte>)
    requires body != [] && body[0] == AMP
    ensures Tokens(body) == Tokens(body[1..])
  {
  }

  /** A token in front of a delimiter, and a token at the end of the text. */
  lemma {:induction false} TokensCons(token: seq<byte>, rest: seq<byte>)
    requires token != [] && AMP !in token
    ensures Tokens(token + [AMP] + rest) == [token] + Tokens(rest)
  {
    var body := token + [AMP] + rest;
    FindIsUnique(body, AMP, |token|);
    assert body[..|token|] == token && body[|token| + 1..] == rest;
  }

  lemma {:induction false} TokensOne(token: seq<byte>)
    requires token != [] && AMP !in token
    ensures Tokens(token) == [token] + Tokens([])
  {
    FindIsUnique(token, AMP, |token|);
    assert token[..|token|] == token;
  }

  lemma {:induction false} TokensSkipAmps(mem: seq<byte>, from: nat, i: nat, last: nat)
    requires from <= i <= last <= |mem| && forall k :: from <= k < i ==> mem[k] == AMP
    ensures Tokens(mem[from..last]) == Tokens(mem[i..last])
    decreases i - from
  {
    if from == i {
    } else {
      TokensSkipAmp(mem[from..last]);
      assert mem[from..last][1..] == mem[from + 1..last];
      TokensSkipAmps(mem, from + 1, i, last);
    }
  }

  /** The scan of `strtok`: over leading delimiters to i, then to the end e of the token. */
  method Scan(buf: array<byte>, from: nat) returns (i: nat, e: nat)
    requires from < buf.Length && End(buf[..], from) < buf.Length
    ensures from <= i <= e <= End(buf[..], from)
    ensures forall k :: from <= k < i ==> buf[k] == AMP
    ensures forall k :: i <= k < e ==> buf[k] != AMP
    ensures if i == End(buf[..], from) then buf[i] == 0 else buf[i] != AMP && buf[i] != 0
    ensures buf[e] == 0 || buf[e] == AMP
  {
    ghost var mem := buf[..];
    ghost var last := End(mem, from);
    assert forall k :: from <= k < last ==> mem[k] != 0;
    assert mem[last] == 0;
    i := from;
    while buf[i] == AMP
      invariant from <= i <= last
      invariant forall k :: from <= k < i ==> buf[k] == AMP
      decreases last - i
    {
      i := i + 1;
    }
    e := i;
    while buf[e] != 0 && buf[e] != AMP
      invariant i <= e <= last
      invariant forall k :: i <= k < e ==> buf[k] != AMP
      decreases last - e
    {
      e := e + 1;
    }
  }

  /** What one call finds, for a text that ends at `last`: the token i..e and the rest behind e. */
  ghost predicate Cuts(mem: seq<byte>, from: nat, cut: seq<byte>, token: nat, save: nat)
    requires from <= |mem|
  {
    && from <= token < save < |cut| == |mem|
    && token < End(cut, token) <= save
    && End(cut, save) < |cut|
    && Tokens(CStr(mem, from)) == [CStr(cut, token)] + Tokens(CStr(cut, save))
  }

  lemma {:induction false} CutTexts(mem: seq<byte>, i: nat, e: nat, last: nat, save: nat)
    requires i <= e <= last < |mem| && last == End(mem, i) && save == if e < last then e + 1 else e
    ensures var cut := mem[e := 0];
            && End(cut, i) == e && CStr(cut, i) == mem[i..e]
            && End(cut, save) == last && CStr(cut, save) == mem[save..last]
  {
    var cut := mem[e := 0];
    EndIsUnique(cut, i, e);
    EndIsUnique(cut, save, last);
  }

  lemma {:induction false} SplitAround(mem: seq<byte>, i: nat, e: nat, last: nat)
    requires i <= e < last <= |mem|
    ensures mem[i..last] == mem[i..e] + [mem[e]] + mem[e + 1..last]
  {
  }

  lemma {:induction false} TokensAt(mem: seq<byte>, i: nat, e: nat, last: nat, save: nat)
    requires i < e <= last <= |mem| && save == if e < last then e + 1 else e
    requires (e < last ==> mem[e] == AMP) && forall k :: i <= k < e ==> mem[k] != AMP
    ensures Tokens(mem[i..last]) == [mem[i..e]] + Tokens(mem[save..last])
  {
    if e < last {
      SplitAround(mem, i, e, last);
      TokensCons(mem[i..e], mem[save..last]);
    } else {
      TokensOne(mem[i..e]);
    }
  }

  lemma {:induction false} CutToken(mem: seq<byte>, from: nat, i: nat, e: nat, last: nat, cut: seq<byte>, save: nat)
    requires from <= i < e <= last < |mem| && last == End(mem, from)
    requires forall k :: from <= k < i ==> mem[k] == AMP
    requires (e < last ==> mem[e] == AMP) && forall k :: i <= k < e ==> mem[k] != AMP
    requires cut == mem[e := 0] && save == if e < last then e + 1 else e
    ensures Cuts(mem, from, cut, i, save)
  {
    EndIsUnique(mem, i, last);
    CutTexts(mem, i, e, last, save);
    TokensSkipAmps(mem, from, i, last);
    TokensAt(mem, i, e, last, save);
  }

  /**
   One call of `strtok(…, "&")` that continues at `from`: `token` is the start of the next token,
   or -1, and `save` is where the following call continues.
   */
  method Strtok(buf: array<byte>, from: nat) returns (token: int, save: nat)
    requires from < buf.Length && End(buf[..], from) < buf.Length
    modifies buf
    ensures token < 0 ==> Tokens(old(CStr(buf[..], from))) == [] && buf[..] == old(buf[..])
    ensures token >= 0 ==> Cuts(old(buf[..]), from, buf[..], token, save)
  {
    ghost var mem, last := buf[..], End(buf[..], from);
    var i, e := Scan(buf, from);
    if buf[i] == 0 {
      TokensSkipAmps(mem, from, i, last);
      return -1, i;
    }
    token, save := i, e;
    if buf[e] != 0 {
      buf[e] := 0;
      save := e + 1;
    }
    CutToken(mem, from, i, e, last, buf[..], save);
  }

  // ----- parse_buffer -----

  lemma {:induction false} PairHalves(mem: seq<byte>, token: nat, sep: nat, last: nat)
    requires token <= sep < last <= |mem|
    ensures mem[token..last][..sep - token] == mem[token..sep]
    ensures mem[token..last][sep - token + 1..] == mem[sep + 1..last]
  {
    var text := mem[token..last];
    assert text[..sep - token] == text[0..sep - token];
    SliceOfSlice(mem, token, last, 0, sep - token);
    assert text[sep - token + 1..] == text[sep - token + 1..last - token];
    SliceOfSlice(mem, token, last, sep - token + 1, last - token);
  }

  /** The first byte of a text is the byte it starts at, which is NUL when the text is empty. */
  lemma {:induction false} EndOfRest(mem: seq<byte>, i: nat)
    requires i < |mem| && End(mem, i) < |mem|
    ensures CStr(mem, i) != [] ==> CStr(mem, i)[0] == mem[i]
    ensures CStr(mem, i) == [] ==> mem[i] == 0
  {
  }

  lemma {:induction false} CutPair(mem: seq<byte>, token: nat, sep: nat, last: nat)
    requires token <= sep <= last < |mem| && last == End(mem, token)
    requires (sep < last ==> mem[sep] == EQ) && forall k :: token <= k < sep ==> mem[k] != EQ
    ensures sep == last ==> PairOf(CStr(mem, token)) == []
    ensures sep < last ==>
      var cut := mem[sep := 0];
      && PairOf(CStr(mem, token)) == [(CStr(cut, token), PassedValue(CStr(cut, sep + 1)))]
      && (CStr(cut, sep + 1) != [] ==> CStr(cut, sep + 1)[0] == cut[sep + 1])
      && (CStr(cut, sep + 1) == [] ==> cut[sep + 1] == 0)
  {
    var text, k := mem[token..last], sep - token;
    FindIsUnique(text, EQ, k);
    if sep < last {
      CutTexts(mem, token, sep, last, sep + 1);
      PairHalves(mem, token, sep, last);
      EndOfRest(mem[sep := 0], sep + 1);
    }
  }

  method FindSeparator(buf: array<byte>, token: nat) returns (sep: nat)
    requires token < buf.Length && End(buf[..], token) < buf.Length
    ensures token <= sep <= End(buf[..], token)
    ensures if sep < End(buf[..], token) then buf[sep] == EQ else buf[sep] == 0
    ensures forall k :: token <= k < sep ==> buf[k] != EQ
  {
    ghost var mem := buf[..];
    ghost var last := End(mem, token);
    assert mem[last] == 0;
    assert forall k :: token <= k < last ==> mem[k] != 0;
    sep := token;
    while buf[sep] != 0 && buf[sep] != EQ
      invariant token <= sep <= last
      invariant forall k :: token <= k < sep ==> buf[k] != EQ
      decreases last - sep
    {
      sep := sep + 1;
    }
  }

  lemma {:induction false} StoreOne(s: Store, p: Pair)
    requires |s.mem| == SIZE
    ensures StoreAll(s, [p]) == StorePair(s, p)
  {
  }

  /** The inner loop: the first '=' of the token is cut out and the pair handed to the callback. */
  method ParseToken(buf: array<byte>, token: nat, settings: SettingsRecord)
    requires settings.Valid() && buf != settings.mem
    requires token < buf.Length && End(buf[..], token) < buf.Length
    modifies buf, settings`changed, settings.mem
    ensures settings.View() == StoreAll(old(settings.View()), PairOf(old(CStr(buf[..], token))))
    ensures buf[old(End(buf[..], token))..] == old(buf[End(buf[..], token)..])
  {
    ghost var mem, before := buf[..], settings.View();
    var sep := FindSeparator(buf, token);
    CutPair(mem, token, sep, End(mem, token));
    if buf[sep] == EQ {
      buf[sep] := 0;
      assert buf[..] == mem[sep := 0];
      var key, value := CStr(buf[..], token), CStr(buf[..], sep + 1);
      if buf[sep + 1] != DIGIT_ZERO {
        settings.ProcessPostField(key, value);
      } else {
        settings.ProcessPostField(key, []);
      }
      StoreOne(before, (key, PassedValue(value)));
    }
  }

  lemma {:induction false} PairsOfCons(token: seq<byte>, rest: seq<seq<byte>>)
    ensures PairsOf([token] + rest) == PairOf(token) + PairsOf(rest)
  {
  }

  lemma {:induction false} EndDependsOnTail(a: seq<byte>, b: seq<byte>, lo: nat, i: nat)
    requires |a| == |b| && lo <= i <= |a| && a[lo..] == b[lo..]
    ensures End(a, i) == End(b, i) && CStr(a, i) == CStr(b, i)
  {
  }

  /** The record after the token in hand and everything behind it. */
  ghost function Remaining(s: Store, mem: seq<byte>, token: nat, save: nat): Store
    requires |s.mem| == SIZE && token <= |mem| && save <= |mem|
  {
    StoreAll(s, PairsOf([CStr(mem, token)] + Tokens(CStr(mem, save))))
  }

  lemma {:induction false} RemainingStep(s: Store, mem: seq<byte>, token: nat, save: nat)
    requires |s.mem| == SIZE && token <= |mem| && save <= |mem|
    ensures Remaining(s, mem, token, save) ==
      StoreAll(StoreAll(s, PairOf(CStr(mem, token))), Pairs(CStr(mem, save)))
  {
    PairsOfCons(CStr(mem, token), Tokens(CStr(mem, save)));
    StoreAllConcat(s, PairOf(CStr(mem, token)), PairsOf(Tokens(CStr(mem, save))));
  }

  /** `parse_buffer`. */
  method ParseBuffer(buf: array<byte>, settings: SettingsRecord)
    requires settings.Valid() && buf != settings.mem
    requires 0 < buf.Length && End(buf[..], 0) < buf.Length
    modifies buf, settings`changed, settings.mem
    ensures settings.View() == StoreAll(old(settings.View()), Pairs(old(CStr(buf[..], 0))))
  {
    ghost var target := StoreAll(settings.View(), Pairs(CStr(buf[..], 0)));
    var token, save := Strtok(buf, 0);
    while token >= 0
      invariant token >= 0 ==>
        && token < save < buf.Length
        && token < End(buf[..], token) <= save
        && End(buf[..], save) < buf.Length
        && Remaining(settings.View(), buf[..], token, save) == target
      invariant token < 0 ==> settings.View() == target
      decreases if token < 0 then 0 else buf.Length - token
    {
      ghost var was := buf[..];
      RemainingStep(settings.View(), was, token, save);
      ParseToken(buf, token, settings);
      EndDependsOnTail(was, buf[..], End(was, token), save);
      token, save := Strtok(buf, save);
    }
  }

  // ----- reception -----

  datatype Err = ErrOk | ErrVal | ErrMem

  lemma {:induction false} ConcatSnoc(chunks: seq<seq<byte>>, n: nat)
    requires n < |chunks|
    ensures Concat(chunks[..n + 1]) == Concat(chunks[..n]) + chunks[n]
    decreases |chunks|
  {
    if n > 0 {
      ConcatSnoc(chunks[1..], n - 1);
      assert chunks[..n + 1][1..] == chunks[1..][..n] && chunks[..n][1..] == chunks[1..][..n - 1];
    } else {
      assert chunks[..1][1..] == [] && chunks[..0] == [];
    }
  }

  lemma {:induction false} ConcatPrefix(chunks: seq<seq<byte>>, n: nat)
    requires n <= |chunks|
    ensures |Concat(chunks[..n])| <= |Concat(chunks)|
    decreases |chunks|
  {
    if n == 0 {
    } else {
      ConcatPrefix(chunks[1..], n - 1);
      assert chunks[..n][1..] == chunks[1..][..n - 1];
    }
  }

  /** The zeros behind the body end the text exactly where the body does, or at its first NUL. */
  lemma {:induction false} BufferText(mem: seq<byte>, index: nat)
    requires index <= |mem| && 0 in mem && forall k :: index <= k < |mem| ==> mem[k] == 0
    ensures End(mem, 0) < |mem| && CStr(mem, 0) == CStr(mem[..index], 0)
  {
    var k :| 0 <= k < |mem| && mem[k] == 0;
    var e := End(mem[..index], 0);
    assert forall j :: 0 <= j < e ==> mem[..index][j] == mem[j];
    if e < index {
      assert mem[..index][e] == mem[e];
    }
    EndIsUnique(mem, 0, e);
  }

  /** The static buffer of the POST handlers, the record it is parsed into and the store flag. */
  class PostHandler {
    const buffer: array<byte>
    const settings: SettingsRecord
    var index: nat
    var storeFlag: bool
    ghost var open: bool

    /** Behind the bytes of the request in progress the buffer is all zero. */
    ghost predicate Valid()
      reads this, buffer
    {
      && buffer.Length == MAX_POST_DATA_LEN && settings.Valid() && buffer != settings.mem
      && index <= MAX_POST_DATA_LEN
      && forall k :: (if open then index else 0) <= k < MAX_POST_DATA_LEN ==> buffer[k] == 0
    }

    constructor (settings: SettingsRecord)
      requires settings.Valid()
      ensures Valid() && !open && !storeFlag && this.settings == settings && fresh(buffer)
    {
      this.settings := settings;
      buffer := new byte[MAX_POST_DATA_LEN](_ => 0);
      index, storeFlag, open := 0, false, false;
    }

    /** What has arrived of the request in progress. */
    ghost function Body(): seq<byte>
      requires Valid()
      reads this, buffer
    {
      if open then buffer[..index] else []
    }

    /** The text in the buffer ends exactly when the body leaves room for a terminator or holds one. */
    lemma {:induction false} TextEndsExactly()
      requires Valid() && open
      ensures 0 in buffer[..] <==> |Body()| < MAX_POST_DATA_LEN || 0 in Body()
    {
      if index < MAX_POST_DATA_LEN {
        assert buffer[..][index] == 0;
      } else {
        assert buffer[..] == Body();
      }
    }

    /** `httpd_post_begin`; requests do not overlap. */
    method Begin(contentLen: int) returns (err: Err)
      requires Valid() && !open
      modifies this
      ensures Valid() && storeFlag == old(storeFlag)
      ensures if contentLen > MAX_POST_DATA_LEN then err == ErrVal && !open else err == ErrOk && open && Body() == []
    {
      if contentLen > MAX_POST_DATA_LEN {
        return ErrVal;
      }
      index := 0;
      open := true;
      return ErrOk;
    }

    /** `httpd_post_receive_data` for one pbuf. */
    method ReceiveData(data: seq<byte>) returns (err: Err)
      requires Valid() && open
      modifies this`index, buffer
      ensures Valid()
      ensures if |old(Body())| + |data| > MAX_POST_DATA_LEN then err == ErrMem && Body() == old(Body())
              else err == ErrOk && Body() == old(Body()) + data
    {
      if index + |data| > MAX_POST_DATA_LEN {
        return ErrMem;
      }
      forall k | 0 <= k < |data| {
        buffer[index + k] := data[k];
      }
      index := index + |data|;
      return ErrOk;
    }

    /** `httpd_post_finished`; the text must end inside the buffer. */
    method Finished()
      requires Valid() && open && 0 in buffer[..]
      modifies this, buffer, settings`changed, settings.mem
      ensures Valid() && !open && storeFlag
      ensures settings.View() == StoreAll(old(settings.View()), Pairs(CStr(old(Body()), 0)))
    {
      BufferText(buffer[..], index);
      ParseBuffer(buffer, settings);
      storeFlag := true;
      forall k | 0 <= k < MAX_POST_DATA_LEN {
        buffer[k] := 0;
      }
      open := false;
    }

    /**
     A whole request as lwIP delivers it, for any division of the body into chunks.  A body that
     fills the buffer must hold a NUL, or its text would not end.
     */
    method Post(chunks: seq<seq<byte>>) returns (err: Err)
      requires Valid() && !open
      requires |Concat(chunks)| == 1024 ==> 0 in Concat(chunks)
      modifies this, buffer, settings`changed, settings.mem
      ensures Valid() && !open
      ensures if |Concat(chunks)| > 1024
              then err == ErrVal && settings.View() == old(settings.View()) && storeFlag == old(storeFlag)
              else && err == ErrOk && storeFlag
                   && settings.View() == StoreAll(old(settings.View()), Pairs(CStr(Concat(chunks), 0)))
    {
      err := Begin(|Concat(chunks)|);
      if err == ErrVal {
        return;
      }
      for n := 0 to |chunks|
        invariant Valid() && open && err == ErrOk && Body() == Concat(chunks[..n])
        invariant settings.View() == old(settings.View())
      {
        ConcatSnoc(chunks, n);
        ConcatPrefix(chunks, n + 1);
        err := ReceiveData(chunks[n]);
      }
      assert chunks[..|chunks|] == chunks;
      TextEndsExactly();
      Finished();
    }
  }

  /** A body of 1024 bytes without a NUL is accepted, and leaves a buffer in which no text ends. */
  method FullBodyHasNoEnd(settings: SettingsRecord) returns (h: PostHandler, begun: Err, received: Err)
    requires settings.Valid()
    ensures fresh(h) && h.Valid() && begun == ErrOk && received == ErrOk
    ensures h.Body() == seq(MAX_POST_DATA_LEN, _ => AMP) && 0 !in h.buffer[..]
  {
    h := new PostHandler(settings);
    begun := h.Begin(MAX_POST_DATA_LEN);
    received := h.ReceiveData(seq(MAX_POST_DATA_LEN, _ => AMP));
    h.TextEndsExactly();
  }

  // ----- what a posted form means for the settings -----

  lemma {:induction false} TokensNoNul(body: seq<byte>)
    requires NoNul(body)
    ensures forall t :: t in Tokens(body) ==> NoNul(t)
    decreases |body|
  {
    if body == [] {
    } else {
      var e := Find(body, AMP);
      if e < |body| {
        TokensNoNul(body[e + 1..]);
      }
    }
  }

  lemma {:induction false} PairsOfNoNul(tokens: seq<seq<byte>>)
    requires forall t :: t in tokens ==> NoNul(t)
    ensures AllNoNul(PairsOf(tokens))
    decreases |tokens|
  {
    if tokens == [] {
    } else {
      PairsOfNoNul(tokens[1..]);
      assert NoNul(tokens[0]);
      assert AllNoNul(PairOf(tokens[0]));
    }
  }

  /** The key and value of a token as they were sent. */
  function SentOf(token: seq<byte>): seq<Pair>
  {
    var k := Find(token, EQ);
    if k == |token| then [] else [(token[..k], token[k + 1..])]
  }

  function SentBy(tokens: seq<seq<byte>>): seq<Pair>
  {
    if tokens == [] then [] else SentOf(tokens[0]) + SentBy(tokens[1..])
  }

  /** The pairs of a body as they were sent. */
  function Sent(body: seq<byte>): seq<Pair> { SentBy(Tokens(body)) }

  /** A sent pair that ends up in field i: it fits the slot and does not start with the digit '0'. */
  predicate Reaches(i: nat, p: Pair)
  {
    Accepts(i, p) && p.1[0] != DIGIT_ZERO
  }

  lemma {:induction false} PairsAreSent(tokens: seq<seq<byte>>)
    ensures |PairsOf(tokens)| == |SentBy(tokens)|
    ensures forall j :: 0 <= j < |SentBy(tokens)| ==>
      PairsOf(tokens)[j] == (SentBy(tokens)[j].0, PassedValue(SentBy(tokens)[j].1))
    decreases |tokens|
  {
    if tokens == [] {
    } else {
      PairsAreSent(tokens[1..]);
    }
  }

  lemma {:induction false} AcceptedExactlyIfReaching(body: seq<byte>, i: nat)
    ensures |Pairs(body)| == |Sent(body)|
    ensures forall j :: 0 <= j < |Sent(body)| ==> (Accepts(i, Pairs(body)[j]) <==> Reaches(i, Sent(body)[j]))
    ensures forall j :: 0 <= j < |Sent(body)| && Reaches(i, Sent(body)[j]) ==> Pairs(body)[j] == Sent(body)[j]
  {
    PairsAreSent(Tokens(body));
  }

  ghost predicate LastReaching(sent: seq<Pair>, i: nat, j: nat)
  {
    && j < |sent|
    && Reaches(i, sent[j])
    && forall k :: j < k < |sent| ==> !Reaches(i, sent[k])
  }

  /** Index k of slot i lies behind every value sent that reaches it and its terminator. */
  ghost predicate Behind(sent: seq<Pair>, i: nat, k: int)
  {
    forall j :: 0 <= j < |sent| && Reaches(i, sent[j]) ==> |sent[j].1| < k
  }

  lemma {:induction false} PostedTexts(s: Store, body: seq<byte>, i: nat)
    requires |s.mem| == SIZE && i < |FIELDS| && AllNoNul(Pairs(body))
    ensures forall j: nat :: LastReaching(Sent(body), i, j) ==> Text(StoreAll(s, Pairs(body)).mem, i) == Sent(body)[j].1
    ensures (forall j :: 0 <= j < |Sent(body)| ==> !Reaches(i, Sent(body)[j])) ==>
      Slot(StoreAll(s, Pairs(body)).mem, i) == Slot(s.mem, i)
  {
    var pairs, sent := Pairs(body), Sent(body);
    AcceptedExactlyIfReaching(body, i);
    LastValueWins(s, pairs, i);
    assert forall j: nat :: LastReaching(sent, i, j) ==> LastAccepted(pairs, i, j);
  }

  lemma {:induction false} PostedTail(s: Store, body: seq<byte>, i: nat, k: nat)
    requires |s.mem| == SIZE && i < |FIELDS| && k < FIELDS[i].size && Behind(Sent(body), i, k)
    ensures Slot(StoreAll(s, Pairs(body)).mem, i)[k] == Slot(s.mem, i)[k]
  {
    AcceptedExactlyIfReaching(body, i);
    SlotTailIsKept(s, Pairs(body), i, k);
  }

  /**
   The whole pipeline, from what was sent to what is stored: every field reads as the last value
   sent for it that fits and does not start with '0'; a field without one keeps its bytes, and so
   do the bytes behind every value stored, both flag words and the padding; text stays terminated.
   */
  lemma {:induction false} PostedFormMeaning(s: Store, body: seq<byte>, i: nat)
    requires |s.mem| == SIZE && i < |FIELDS| && NoNul(body)
    ensures var sent, r := Sent(body), StoreAll(s, Pairs(body));
            && (forall j: nat :: LastReaching(sent, i, j) ==> Text(r.mem, i) == sent[j].1)
            && ((forall j :: 0 <= j < |sent| ==> !Reaches(i, sent[j])) ==> Slot(r.mem, i) == Slot(s.mem, i))
            && (forall k :: 0 <= k < FIELDS[i].size && Behind(sent, i, k) ==> Slot(r.mem, i)[k] == Slot(s.mem, i)[k])
            && (Terminated(s.mem, i) ==> Terminated(r.mem, i))
            && r.mem[..4] == s.mem[..4] && r.mem[TEXT_END..] == s.mem[TEXT_END..]
  {
    TokensNoNul(body);
    PairsOfNoNul(Tokens(body));
    FrameIsKept(s, Pairs(body), i);
    PostedTexts(s, body, i);
    forall k | 0 <= k < FIELDS[i].size && Behind(Sent(body), i, k)
      ensures Slot(StoreAll(s, Pairs(body)).mem, i)[k] == Slot(s.mem, i)[k]
    {
      PostedTail(s, body, i, k);
    }
  }

  // ----- one posted value -----

  /** A body of one pair is one pair. */
  lemma {:induction false} OnePair(key: seq<byte>, value: seq<byte>)
    requires EQ !in key && AMP !in key && AMP !in value
    ensures Pairs(key + [EQ] + value) == [(key, PassedValue(value))]
  {
    var body := key + [EQ] + value;
    TokensOne(body);
    assert Tokens(body) == [body];
    FindIsUnique(body, EQ, |key|);
    assert body[..|key|] == key && body[|key| + 1..] == value;
    PairsOfCons(body, []);
    assert PairOf(body) + PairsOf([]) == PairOf(body);
  }

  /** Letters and underscores are neither '=' nor '&'. */
  lemma {:induction false} PlainName(s: string)
    requires forall c :: c in s ==> 'A' <= c <= 'z'
    ensures EQ !in Ascii(s) && AMP !in Ascii(s)
  {
    forall k | 0 <= k < |s|
      ensures Ascii(s)[k] != EQ && Ascii(s)[k] != AMP
    {
      assert s[k] in s;
    }
  }

  lemma {:induction false} WifiNamesArePlain(i: nat)
    requires i < 2
    ensures EQ !in FIELDS[i].name && AMP !in FIELDS[i].name
  {
    PlainName("wifi_ssid");
    PlainName("wifi_pass");
  }

  lemma {:induction false} BrokerNamesArePlain(i: nat)
    requires 2 <= i < 5
    ensures EQ !in FIELDS[i].name && AMP !in FIELDS[i].name
  {
    PlainName("tls_mqtt_broker_hostname");
    PlainName("tls_mqtt_broker_port");
    PlainName("tls_mqtt_broker_CN");
  }

  lemma {:induction false} ClientNamesArePlain(i: nat)
    requires 5 <= i < |FIELDS|
    ensures EQ !in FIELDS[i].name && AMP !in FIELDS[i].name
  {
    PlainName("tls_mqtt_client_id");
    PlainName("tls_mqtt_client_name");
    PlainName("tls_mqtt_client_password");
  }

  lemma {:induction false} NamesArePlain(i: nat)
    requires i < |FIELDS|
    ensures EQ !in FIELDS[i].name && AMP !in FIELDS[i].name
  {
    if i < 2 {
      WifiNamesArePlain(i);
    } else if i < 5 {
      BrokerNamesArePlain(i);
    } else {
      ClientNamesArePlain(i);
    }
  }

  /**
   A value posted alone for a field is what the field reads afterwards exactly when it was there
   already, or fits the slot, is not empty and does not start with the digit '0'.
   */
  lemma {:induction false} PostedValueArrivesExactly(s: Store, i: nat, value: seq<byte>)
    requires |s.mem| == SIZE && i < |FIELDS| && NoNul(value) && AMP !in value
    ensures Text(StoreAll(s, Pairs(FIELDS[i].name + [EQ] + value)).mem, i) == value <==>
      Text(s.mem, i) == value || (0 < |value| < FIELDS[i].size && value[0] != DIGIT_ZERO)
  {
    var name, passed := FIELDS[i].name, PassedValue(value);
    NamesArePlain(i);
    OnePair(name, value);
    StoreOne(s, (name, passed));
    StorePairEffect(s, (name, passed), i);
  }

  /** A port number with a leading zero is dropped: the record stays as it was. */
  lemma {:induction false} LeadingZeroIsLost(s: Store)
    requires |s.mem| == SIZE
    ensures StoreAll(s, Pairs(Ascii("tls_mqtt_broker_port") + [EQ] + Ascii("08883"))) == s
  {
    var value := Ascii("08883");
    NamesArePlain(3);
    assert value[0] == 48 && value[1] == 56 && value[2] == 56 && value[3] == 56 && value[4] == 51;
    OnePair(FIELDS[3].name, value);
    StoreOne(s, (FIELDS[3].name, []));
  }

  // ----- what a browser sends -----

  /** The body of a form: its pairs, each with '=' between key and value, joined with '&'. */
  function Form(pairs: seq<Pair>): seq<byte>
  {
    if pairs == [] then [] else
      var first := pairs[0].0 + [EQ] + pairs[0].1;
      if |pairs| == 1 then first else first + [AMP] + Form(pairs[1..])
  }

  /** Key and value are encoded: no '=' in the key, no '&' at all. */
  predicate Encoded(p: Pair) { EQ !in p.0 && AMP !in p.0 && AMP !in p.1 }

  lemma {:induction false} SentOfOne(p: Pair)
    requires Encoded(p)
    ensures SentOf(p.0 + [EQ] + p.1) == [p] && AMP !in p.0 + [EQ] + p.1
  {
    var token := p.0 + [EQ] + p.1;
    FindIsUnique(token, EQ, |p.0|);
    assert token[..|p.0|] == p.0 && token[|p.0| + 1..] == p.1;
  }

  /** Every pair of a form, however many, is read back as it was sent. */
  lemma {:induction false} FormRoundTrip(pairs: seq<Pair>)
    requires forall p :: p in pairs ==> Encoded(p)
    ensures Sent(Form(pairs)) == pairs
    decreases |pairs|
  {
    if pairs == [] {
    } else {
      var p, rest := pairs[0], pairs[1..];
      var token := p.0 + [EQ] + p.1;
      SentOfOne(p);
      if |pairs| == 1 {
        TokensOne(token);
        assert Tokens(token) == [token];
        assert SentBy([token]) == SentOf(token) + SentBy([]) == [p];
      } else {
        FormRoundTrip(rest);
        TokensCons(token, Form(rest));
        var tokens := [token] + Tokens(Form(rest));
        assert tokens[1..] == Tokens(Form(rest));
        assert SentBy(tokens) == [p] + rest;
      }
    }
  }

  /** A value posted under the name of member k of the struct arrives at the bytes of that member. */
  lemma {:induction false} PostedMemberArrivesExactly(s: Store, k: nat, value: seq<byte>)
    requires |s.mem| == SIZE && k < |MEMBERS| && NoNul(value) && AMP !in value
    ensures MemberText(StoreAll(s, Pairs(Ascii(MEMBERS[k].0) + [EQ] + value)).mem, k) == value <==>
      MemberText(s.mem, k) == value || (0 < |value| < MEMBERS[k].1 && value[0] != DIGIT_ZERO)
  {
    TextIsMember(s.mem, k);
    TextIsMember(StoreAll(s, Pairs(FIELDS[k].name + [EQ] + value)).mem, k);
    PostedValueArrivesExactly(s, k, value);
  }

  lemma {:induction false} FormPairs(pairs: seq<Pair>)
    requires forall p :: p in pairs ==> Encoded(p) && PassedValue(p.1) == p.1
    ensures Pairs(Form(pairs)) == pairs
  {
    FormRoundTrip(pairs);
    PairsAreSent(Tokens(Form(pairs)));
  }

  /** Two writes, the second behind the slot of the first. */
  lemma {:induction false} TwoTexts(mem: seq<byte>, a: seq<byte>, b: seq<byte>)
    requires |mem| == SIZE && |a| < 33 && |b| < 64 && NoNul(a) && NoNul(b)
    ensures var r := PutText(PutText(mem, 4, a), 37, b);
      CStr(r[4..37], 0) == a && CStr(r[37..101], 0) == b && r[101..] == mem[101..] && r[..4] == mem[..4]
  {
    var m := PutText(mem, 4, a);
    PutTextReadsBack(mem, 4, 33, a);
    PutTextElsewhere(m, 37, b, 4, 37);
    PutTextReadsBack(m, 37, 64, b);
  }

  lemma {:induction false} WifiForm(ssid: seq<byte>, pass: seq<byte>)
    ensures Ascii("wifi_ssid=") + ssid + Ascii("&wifi_pass=") + pass ==
            Form([(Ascii("wifi_ssid"), ssid), (Ascii("wifi_pass"), pass)])
  {
    assert Ascii("wifi_ssid=") == Ascii("wifi_ssid") + [EQ];
    assert Ascii("&wifi_pass=") == [AMP] + (Ascii("wifi_pass") + [EQ]);
    var p, q := (Ascii("wifi_ssid"), ssid), (Ascii("wifi_pass"), pass);
    assert [p, q][1..] == [q];
    assert Form([q]) == q.0 + [EQ] + q.1;
    assert Form([p, q]) == p.0 + [EQ] + p.1 + [AMP] + (q.0 + [EQ] + q.1);
  }

  /** The form of the settings page: network name and password arrive at bytes 4 to 36 and 37 to 100. */
  lemma {:induction false} WifiCredentialsArrive(s: Store, ssid: seq<byte>, pass: seq<byte>)
    requires |s.mem| == SIZE && 0 < |ssid| < 33 && 0 < |pass| < 64 && NoNul(ssid) && NoNul(pass)
    requires AMP !in ssid && AMP !in pass && ssid[0] != DIGIT_ZERO && pass[0] != DIGIT_ZERO
    ensures var r := StoreAll(s, Pairs(Ascii("wifi_ssid=") + ssid + Ascii("&wifi_pass=") + pass));
      && CStr(r.mem[4..37], 0) == ssid && CStr(r.mem[37..101], 0) == pass
      && r.mem[..4] == s.mem[..4] && r.mem[101..] == s.mem[101..] && r.changed
  {
    var p, q := (Ascii("wifi_ssid"), ssid), (Ascii("wifi_pass"), pass);
    WifiForm(ssid, pass);
    WifiNamesArePlain(0);
    WifiNamesArePlain(1);
    FormPairs([p, q]);
    AcceptingFieldIsUnique(0, p);
    AcceptingFieldIsUnique(1, q);
    assert [p, q][1..] == [q] && [q][1..] == [];
    assert StoreAll(s, [p, q]) == StoreAll(StorePair(s, p), [q]) == StorePair(StorePair(s, p), q);
    TwoTexts(s.mem, ssid, pass);
  }
}
