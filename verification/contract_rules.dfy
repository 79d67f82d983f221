/** The rule catalogue (`ContractRules`): detection rules keyed by the reader's role. */
module ContractRules {

  /** One detection rule: its label, its patterns in the order they are tried, its
      severity and the texts shown with a finding. */
  datatype Rule = Rule(
    name: string,
    patterns: seq<string>,
    score: int,
    explanation: string,
    solution: string,
    lawReference: string)

  /** The consumer rule against clauses that forbid cancelling the contract. */
  const CancellationBan: Rule := Rule(
    CancellationBanName,
    [CancellationBanPattern, CancellationBanAltPattern],
    8,
    CancellationBanExplanation,
    CancellationBanSolution,
    CancellationBanLaw)

  const CancellationBanName: string := "Proibição de cancelamento"
  const CancellationBanPattern: string := "não poderá rescindir.*sob nenhuma hipótese"
  const CancellationBanAltPattern: string := "proibição.*cancelamento"
  const CancellationBanExplanation: string :=
    "Contratos de consumo geralmente permitem cancelamento. Verifique se esta cláusula está de acordo com o Código de Defesa do Consumidor."
  const CancellationBanSolution: string :=
    "Recomendamos verificar com um especialista se esta limitação é válida no seu caso."
  const CancellationBanLaw: string := "CDC Art. 51, IV"

  /** The catalogue: role name to the rules for that role, in the order they are applied. */
  const Catalogue: map<string, seq<Rule>> := map["Consumidor" := [CancellationBan]]

  /** `get_rules_for_role`: the catalogue entry of a role, and the empty sequence for
      a role the catalogue does not know; the lookup never fails. */
  function RulesForRole(role: string): (rules: seq<Rule>)
    ensures role in Catalogue ==> rules == Catalogue[role]
    ensures role !in Catalogue ==> rules == []
  {
    if role in Catalogue then Catalogue[role] else []
  }
}
