/**
 What a peripheral is told, octet by octet: the reports of log, event and
 message masks in each status, and the messages that answer its features
 (router/diag_cntl.c).
 */
module Reports {
  import opened Bytes
  import opened LittleEndian
  import opened Layout
  import opened ControlMessages
  import opened MessageOctets
  import opened Control
  import MsgMasks
  import LogMasks
  import EventMasks

  /** A valid log mask is reported with its items, an unknown one without any; any other status is reported alone, for identifier zero. */
  lemma LogReportOctets(m: LogMasks.LogMap, status: uint8, equipId: uint32)
    ensures status != 3 ==>
              Octets(LogReport(m, status, equipId)) == Image(9, ToLe(11, 4), [[1], [status], [0], ToLe(0, 4), ToLe(0, 4)], [])
    ensures status == 3 && equipId !in m ==>
              Octets(LogReport(m, status, equipId))
              == Image(9, ToLe(11, 4), [[1], [3], [equipId % 0x100], ToLe(0, 4), ToLe(0, 4)], [])
    ensures status == 3 && equipId in m && m[equipId].numItems < 0x1_0000_0000 ==>
              var e := m[equipId];
              Octets(LogReport(m, status, equipId))
              == Image(9, ToLe(11 + |e.mask|, 4), [[1], [3], [equipId % 0x100], ToLe(e.numItems, 4), ToLe(|e.mask|, 4)], e.mask)
  {
    var report := LogReport(m, status, equipId);
    LogMaskOctets(report.status, report.equipId, report.numItems, report.mask);
  }

  /** Events are on in two statuses, and their mask is sent in one. */
  lemma EventReportOctets(m: EventMasks.EventMap, status: uint8)
    ensures status == 3 ==>
              Octets(EventReport(m, status)) == Image(10, ToLe(7 + |m.octets|, 4), [[1], [3], [1], ToLe(|m.octets|, 4)], m.octets)
    ensures status == 2 ==> Octets(EventReport(m, status)) == Image(10, ToLe(7, 4), [[1], [2], [1], ToLe(0, 4)], [])
    ensures status != 2 && status != 3 ==>
              Octets(EventReport(m, status)) == Image(10, ToLe(7, 4), [[1], [status], [0], ToLe(0, 4)], [])
  {
    var report := EventReport(m, status);
    EventMaskOctets(report.status, report.config, report.mask);
  }

  /**
   The range of a message mask report is that of the window the request starts
   in, with all its words when masks are valid and with the first when all are
   enabled; it is 0 to 0 when all are disabled, and as requested otherwise, both
   without words.
   */
  lemma MsgReportOctets(t: MsgView, first: uint16, last: uint16, i: nat)
    requires Reportable(t, first)
    requires t.status == 2 || t.status == 3 ==> i < |t.windows| && MsgMasks.Within(t.windows[i], first)
    ensures t.status == 3 ==>
              var w := t.windows[i];
              var words := MsgMasks.WindowWords(t.table[i], w, w.last - w.first + 1);
              Octets(MsgReport(t, first, last)) == MsgImage(3, w.first, w.last, words) && |words| == w.last - w.first + 1
    ensures t.status == 2 ==>
              var words := MsgMasks.WindowWords(t.table[i], t.windows[i], 1);
              Octets(MsgReport(t, first, last)) == MsgImage(2, t.windows[i].first, t.windows[i].last, words) && |words| == 1
    ensures t.status == 1 ==> Octets(MsgReport(t, first, last)) == MsgImage(1, 0, 0, [])
    ensures t.status == 0 || t.status > 3 ==> Octets(MsgReport(t, first, last)) == MsgImage(t.status, first, last, [])
  {
    MsgReportIs(t, first, last, i);
    if t.status == 3 {
      MsgReportImage(t, first, last, 3);
    } else if t.status == 2 {
      MsgReportImage(t, first, last, 2);
    } else {
      MsgReportImage(t, first, last, t.status);
    }
  }

  lemma MsgReportIs(t: MsgView, first: uint16, last: uint16, i: nat)
    requires Reportable(t, first)
    requires t.status == 2 || t.status == 3 ==> i < |t.windows| && MsgMasks.Within(t.windows[i], first)
    ensures t.status == 3 ==>
              var w := t.windows[i];
              MsgReport(t, first, last)
              == MsgMask(3, w.first, w.last, MsgMasks.WindowWords(t.table[i], w, w.last - w.first + 1))
    ensures t.status == 2 ==>
              var w := t.windows[i];
              MsgReport(t, first, last) == MsgMask(2, w.first, w.last, MsgMasks.WindowWords(t.table[i], w, 1))
    ensures t.status == 1 ==> MsgReport(t, first, last) == MsgMask(1, 0, 0, [])
    ensures t.status == 0 || t.status > 3 ==> MsgReport(t, first, last) == MsgMask(t.status, first, last, [])
  {
    if t.status == 2 || t.status == 3 {
      MsgMasks.WindowUnique(t.windows, first, i);
    }
  }

  lemma MsgReportImage(t: MsgView, first: uint16, last: uint16, status: uint8)
    requires Reportable(t, first) && MsgReport(t, first, last).status == status
    ensures var m := MsgReport(t, first, last);
            Octets(m) == MsgImage(status, m.first, m.last, m.words)
  {
    var m := MsgReport(t, first, last);
    MsgMaskOctets(m.status, m.first, m.last, m.words);
  }

  function MsgImage(status: uint8, first: uint16, last: uint16, words: seq<uint32>): seq<uint8> {
    Image(11, ToLe(11 + 4 * |words|, 4), [[1], [status], [0], ToLe(first, 2), ToLe(last, 2), ToLe(|words|, 4)], PackWords(words))
  }

  lemma {:induction false} MsgReportsAre(t: MsgView, n: nat, i: nat)
    requires GoodView(t) && i < n <= |t.windows|
    ensures Reportable(t, t.windows[i].first) && MsgReports(t, n)[i] == MsgReport(t, t.windows[i].first, t.windows[i].last)
    decreases n
  {
    if i < n - 1 {
      MsgReportsAre(t, n - 1, i);
    } else {
      WindowReportable(t, i);
    }
  }

  /** The mode is real time or not, in the second version for a peripheral with an identifier. */
  lemma ModeMessageOctets(diagId: uint8, realTime: bool)
    ensures Octets(ModeMessage(diagId, realTime))
         == if diagId == 0 then Image(3, [36, 0, 0, 0], ModeParts(1, realTime), [])
            else Image(3, [37, 0, 0, 0], ModeParts(2, realTime) + [[diagId]], [])
  {
    DiagModeOctets(realTime);
    DiagModeForOctets(realTime, diagId);
  }

  /** Likewise the buffering mode. */
  lemma BufferingMessageOctets(diagId: uint8, mode: uint8)
    ensures Octets(BufferingMessage(diagId, mode))
         == if diagId == 0 then Image(17, [6, 0, 0, 0], [[1, 0, 0, 0], [0], [mode]], [])
            else Image(17, [7, 0, 0, 0], [[2, 0, 0, 0], [diagId], [0], [mode]], [])
  {
    BufferingOctets(mode);
    BufferingForOctets(mode, diagId);
  }

  /**
   A peripheral with a control channel that tells its features is sent those
   in common, a report for each window in order, real-time mode, and the
   streaming mode of buffering; one without is sent nothing.
   */
  lemma GreetingIs(env: Env, features: uint32, i: nat)
    requires GoodEnv(env)
    ensures !env.open ==> Greeting(env, features) == []
    ensures env.open ==>
              var ms, windows := Greeting(env, features), env.msgs.windows;
              && |ms| == |windows| + 3 && ms[0] == Feature(features, env.slack)
              && (i < |windows| ==> Reportable(env.msgs, windows[i].first)
                                    && ms[1 + i] == MsgReport(env.msgs, windows[i].first, windows[i].last))
              && ms[|windows| + 1] == ModeMessage(env.diagId, true) && ms[|windows| + 2] == BufferingMessage(env.diagId, 0)
  {
    if env.open && i < |env.msgs.windows| {
      MsgReportsAre(env.msgs, |env.msgs.windows|, i);
    }
  }
}
