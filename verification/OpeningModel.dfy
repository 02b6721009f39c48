/** The records that pass between the drafter, the assembly declaration and the rehearsal adapter. */
module OpeningModel {
  import opened Sorting
  import Text

  /** One census partition: a source account in a currency. */
  datatype Key = Key(account: string, currency: string)

  datatype Partition = Partition(
    source: string, sourceKey: string, account: string, currency: string, precision: int,
    idempotencyKey: string, fingerprint: string, mark: string)

  datatype Identity = Identity(kind: string, key: string)

  datatype InvoiceMapping = InvoiceMapping(invoice: string, identity: Identity, key: string)

  datatype SettlementKey = SettlementKey(kind: string, id: string)

  datatype DischargeMapping = DischargeMapping(settlement: SettlementKey, reference: string, source: string)

  /** The parts of an assembly declaration that map identities. */
  datatype Assembly = Assembly(
    partitions: seq<Partition>, invoices: seq<InvoiceMapping>, discharges: seq<DischargeMapping>)

  function PartitionKey(p: Partition): Key {
    Key(p.source, p.currency)
  }

  /** What the declaration's constructor insists on: no two rows answer one lookup. */
  predicate LookupsDistinct(a: Assembly) {
    && (forall i, j | 0 <= i < j < |a.partitions| :: PartitionKey(a.partitions[i]) != PartitionKey(a.partitions[j]))
    && (forall i, j | 0 <= i < j < |a.invoices| :: a.invoices[i].invoice != a.invoices[j].invoice)
  }

  predicate KeyLe(a: Key, b: Key) {
    Text.TupleLe([a.account, a.currency], [b.account, b.currency])
  }

  lemma KeyLeIsTotalOrder()
    ensures TotalOrder(KeyLe)
  {
    hide Text.TupleLe;
    Text.TupleLeIsTotalOrder();
    forall x: Key, y: Key | KeyLe(x, y) && KeyLe(y, x) ensures x == y {
      assert [x.account, x.currency][0] == [y.account, y.currency][0];
      assert [x.account, x.currency][1] == [y.account, y.currency][1];
    }
  }

  predicate SettlementLe(a: SettlementKey, b: SettlementKey) {
    Text.TupleLe([a.kind, a.id], [b.kind, b.id])
  }

  lemma SettlementLeIsTotalOrder()
    ensures TotalOrder(SettlementLe)
  {
    hide Text.TupleLe;
    Text.TupleLeIsTotalOrder();
    forall x: SettlementKey, y: SettlementKey | SettlementLe(x, y) && SettlementLe(y, x) ensures x == y {
      assert [x.kind, x.id][0] == [y.kind, y.id][0];
      assert [x.kind, x.id][1] == [y.kind, y.id][1];
    }
  }

  predicate DischargeLe(a: DischargeMapping, b: DischargeMapping) {
    SettlementLe(a.settlement, b.settlement)
  }

  lemma DischargeLeIsTotalPreorder()
    ensures TotalPreorder(DischargeLe)
  {
    hide SettlementLe;
    SettlementLeIsTotalOrder();
  }
}
